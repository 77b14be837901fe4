/**
 * Properties of the encoder's output: tier minimality, the byte layout of
 * each record kind, the emptiness predicate, the struct key set, the hook
 * path and the Nil cases.
 */
module EncodingFacts {
  import opened Wrappers
  import opened Tags
  import opened BigEndian
  import opened Reflect
  import opened Encoding

  lemma {:induction false} ModulusStep(b: nat)
    ensures Modulus(b + 8) == 256 * Modulus(b)
  {
    assert Modulus(b + 8) == 2 * Modulus(b + 7);
    assert Modulus(b + 7) == 2 * Modulus(b + 6);
    assert Modulus(b + 6) == 2 * Modulus(b + 5);
    assert Modulus(b + 5) == 2 * Modulus(b + 4);
    assert Modulus(b + 4) == 2 * Modulus(b + 3);
    assert Modulus(b + 3) == 2 * Modulus(b + 2);
    assert Modulus(b + 2) == 2 * Modulus(b + 1);
    assert Modulus(b + 1) == 2 * Modulus(b);
  }

  /** 2^(8n) == 256^n. */
  lemma {:induction false} ModulusBytes(n: nat)
    ensures Modulus(8 * n) == Pow256(n)
  {
    if n > 0 {
      ModulusBytes(n - 1);
      ModulusStep(8 * (n - 1));
    }
  }

  /** The widths `reflect` reports for the standard integer kinds. */
  lemma ModulusValues()
    ensures Modulus(8) == 0x100 && Modulus(16) == 0x1_0000
    ensures Modulus(32) == 0x1_0000_0000 && Modulus(64) == 0x1_0000_0000_0000_0000
  {
    ModulusBytes(1);
    ModulusBytes(2);
    ModulusBytes(4);
    ModulusBytes(8);
    Pow256Values();
  }

  /** The tiers in order of size. */
  lemma BytesValues()
    ensures Bytes(W8) == 1 && Bytes(W16) == 2 && Bytes(W32) == 4 && Bytes(W64) == 8
  {
  }

  /**
   * `encodeInt` picks the smallest tier whose two's-complement range holds
   * the value: it fits its tier and no smaller tier.
   */
  lemma IntTierMinimal(i: int)
    requires FitsInt(i, 64)
    ensures InSignedRange(i, Bytes(IntTier(i)))
    ensures forall w :: Bytes(w) < Bytes(IntTier(i)) ==> !InSignedRange(i, Bytes(w))
  {
    ModulusValues();
    Pow256Values();
  }

  /** `encodeUint` picks the smallest tier whose range holds the value. */
  lemma UintTierMinimal(u: nat)
    requires FitsUint(u, 64)
    ensures u < Pow256(Bytes(UintTier(u)))
    ensures forall w :: Bytes(w) < Bytes(UintTier(u)) ==> u >= Pow256(Bytes(w))
  {
    ModulusValues();
    Pow256Values();
  }

  /** A length prefix takes the smallest of the 1, 2 and 4 byte tiers that holds it. */
  lemma LenTierMinimal(n: nat)
    requires n < 0x1_0000_0000
    ensures n < Pow256(Bytes(LenTier(n))) && LenTier(n) != W64
    ensures forall w :: Bytes(w) < Bytes(LenTier(n)) ==> n >= Pow256(Bytes(w))
  {
    Pow256Values();
  }

  /**
   * A signed record is the tag of its tier followed by exactly that many
   * big-endian two's-complement bytes, which read back as the value.
   */
  lemma IntRecordLayout(i: int)
    requires FitsInt(i, 64)
    ensures |IntRecord(i)| == 1 + Bytes(IntTier(i))
    ensures IntRecord(i)[0] == Tag(KInt(IntTier(i)))
    ensures Signed(FromBE(IntRecord(i)[1..]), Bytes(IntTier(i))) == i
  {
    var n := Bytes(IntTier(i));
    IntTierMinimal(i);
    assert IntRecord(i)[1..] == IntPayload(i, IntTier(i));
    FromToBEInRange(Unsigned(i, n), n);
    SignedUnsigned(i, n);
  }

  /** An unsigned record is its tier's tag and the big-endian value in that many bytes. */
  lemma UintRecordLayout(u: nat)
    requires FitsUint(u, 64)
    ensures |UintRecord(u)| == 1 + Bytes(UintTier(u))
    ensures UintRecord(u)[0] == Tag(KUint(UintTier(u)))
    ensures FromBE(UintRecord(u)[1..]) == u
  {
    UintTierMinimal(u);
    assert UintRecord(u)[1..] == UintPayload(u, UintTier(u));
    FromToBEInRange(u, Bytes(UintTier(u)));
  }

  /**
   * A Text record is its tier's tag, the prefix holding the length, then
   * exactly the raw bytes.
   */
  lemma TextRecordLayout(s: seq<byte>)
    requires |s| < 0x1_0000_0000
    ensures var b := Bytes(LenTier(|s|));
      |TextRecord(s)| == 1 + b + |s| &&
      TextRecord(s)[0] == Tag(KString(LenTier(|s|))) &&
      FromBE(TextRecord(s)[1..1 + b]) == |s| &&
      TextRecord(s)[1 + b..] == s
  {
    var b := Bytes(LenTier(|s|));
    LenTierMinimal(|s|);
    assert TextRecord(s)[1..1 + b] == UintPayload(|s|, LenTier(|s|));
    FromToBEInRange(|s|, b);
  }

  /** A Binary record has the same layout under the Binary tag. */
  lemma BinaryRecordLayout(s: seq<byte>)
    requires |s| < 0x1_0000_0000
    ensures var b := Bytes(LenTier(|s|));
      |BinaryRecord(s)| == 1 + b + |s| &&
      BinaryRecord(s)[0] == Tag(KBinary(LenTier(|s|))) &&
      FromBE(BinaryRecord(s)[1..1 + b]) == |s| &&
      BinaryRecord(s)[1 + b..] == s
  {
    var b := Bytes(LenTier(|s|));
    LenTierMinimal(|s|);
    assert BinaryRecord(s)[1..1 + b] == UintPayload(|s|, LenTier(|s|));
    FromToBEInRange(|s|, b);
  }

  /**
   * From 2^32 on, the length prefix is `uint32(n)`: it records the length
   * modulo 2^32 while all the bytes are still written.
   */
  lemma TextLengthTruncated(s: seq<byte>)
    requires |s| >= 0x1_0000_0000
    ensures LenTier(|s|) == W32
    ensures FromBE(TextRecord(s)[1..5]) == |s| % 0x1_0000_0000
    ensures TextRecord(s)[5..] == s
  {
    Pow256Values();
    assert TextRecord(s)[1..5] == UintPayload(|s|, W32);
    FromToBE(|s|, 4);
  }

  /** The single-byte records. */
  lemma SimpleRecords(h: Hooks, t: Type, e: Type)
    ensures EncodeValue(h, t, VBool(true), false) == Done([0x54])
    ensures EncodeValue(h, t, VBool(false), false) == Done([0x46])
    ensures EncodeValue(h, Ptr(e), VPtr(None), false) == Done([0x5A])
    ensures EncodeValue(h, Interface(0), VIface(None), false) == Done([0x5A])
    ensures EncodeValue(h, Other, VOther, false) == Done([0x5A])
    ensures Encode(h, None) == Done([0x5A])
  {
    TagValues();
  }

  /**
   * Only the exact type `[]byte` takes the Binary path; a byte array goes
   * through the array encoder, one record per element.
   */
  lemma ByteSliceVersusByteArray(h: Hooks, items: seq<Val>)
    ensures EncodeValue(h, ByteSlice, VSlice(false, items), false) == Done(BinaryRecord(BytesOf(items)))
    ensures EncodeValue(h, Array(|items|, Uint(8)), VArray(items), false)
         == Then(ArrayHeader(|items|), EncodeItems(h, Uint(8), items, 0, false))
    ensures EncodeValue(h, ByteSlice, VSlice(false, items), true) == Fail(Panic)
  {
  }

  /** The concatenation of the records of items[i..], each under element type e. */
  function Records(h: Hooks, e: Type, items: seq<Val>, i: nat): seq<byte>
    requires i <= |items|
    decreases |items| - i
  {
    if i == |items| then [] else EncodeValue(h, e, items[i], false).bytes + Records(h, e, items, i + 1)
  }

  /**
   * The element loop succeeds exactly when every element encodes, and then
   * writes the element records in index order and nothing else.
   */
  lemma {:induction false} ItemsAreRecords(h: Hooks, e: Type, items: seq<Val>, i: nat)
    requires i <= |items|
    decreases |items| - i
    ensures EncodeItems(h, e, items, i, false).err.None?
        <==> forall k :: i <= k < |items| ==> EncodeValue(h, e, items[k], false).err.None?
    ensures EncodeItems(h, e, items, i, false).err.None? ==>
        EncodeItems(h, e, items, i, false).bytes == Records(h, e, items, i)
  {
    if i < |items| {
      ItemsAreRecords(h, e, items, i + 1);
    }
  }

  /**
   * An array or slice of n elements (other than `[]byte`) is a count header
   * for n followed by exactly the n element records in index order.
   */
  lemma ArrayEncoding(h: Hooks, t: Type, items: seq<Val>)
    requires t.Array? || (t.Slice? && t != ByteSlice)
    requires forall k :: 0 <= k < |items| ==> EncodeValue(h, t.elem, items[k], false).err.None?
    ensures var v := if t.Array? then VArray(items) else VSlice(false, items);
      EncodeValue(h, t, v, false) == Done(ArrayHeader(|items|) + Records(h, t.elem, items, 0))
  {
    ItemsAreRecords(h, t.elem, items, 0);
  }

  /** The names of the fields kept, in the order their pairs are written. */
  function KeptNames(t: Type, keep: seq<nat>): seq<seq<byte>>
  {
    seq(|keep|, j requires 0 <= j < |keep| => FieldAt(t, keep[j]).name)
  }

  /**
   * A struct without a hook writes an object header whose count is the
   * number of non-empty fields, and the keys are exactly those fields' names.
   */
  lemma ObjectKeys(h: Hooks, t: Type, fs: seq<Val>)
    requires t.Struct? && !t.marshaler && |fs| == |t.fields|
    ensures var keep := Kept(fs, 0);
      EncodeValue(h, t, VStruct(fs), false) == Then(ObjectHeader(|keep|), EncodePairs(h, t, fs, keep, 0)) &&
      (forall k :: 0 <= k < |fs| ==> (t.fields[k].name in KeptNames(t, keep) <== !SkipValue(fs[k]))) &&
      (forall j :: 0 <= j < |keep| ==> !SkipValue(fs[keep[j]]))
  {
    var keep := Kept(fs, 0);
    KeptSpec(fs, 0);
    forall k | 0 <= k < |fs| && !SkipValue(fs[k])
      ensures t.fields[k].name in KeptNames(t, keep)
    {
      assert k in keep;
      var j :| 0 <= j < |keep| && keep[j] == k;
      assert KeptNames(t, keep)[j] == t.fields[k].name;
    }
  }

  /** Each pair of a struct's object is a Text key with the field name, then the field's record. */
  lemma PairLayout(h: Hooks, t: Type, fs: seq<Val>, keep: seq<nat>, j: nat)
    requires j < |keep|
    requires forall k :: 0 <= k < |keep| ==> keep[k] < |fs|
    requires EncodeValue(h, FieldAt(t, keep[j]).typ, fs[keep[j]], !FieldAt(t, keep[j]).exported).err.None?
    ensures var f := FieldAt(t, keep[j]);
      EncodePairs(h, t, fs, keep, j)
        == Then(TextRecord(f.name) + EncodeValue(h, f.typ, fs[keep[j]], !f.exported).bytes,
                EncodePairs(h, t, fs, keep, j + 1))
  {
  }

  /**
   * The hook path: a struct whose value has `MarshalBinary` is written as a
   * Binary record of the hook's bytes, and a failing hook's error is
   * returned with nothing written.
   */
  lemma MarshalerHook(h: Hooks, t: Type, v: Val)
    requires t.Struct? && t.marshaler && v.VStruct?
    ensures h.marshal(t, v).Success? ==> EncodeValue(h, t, v, false) == Done(BinaryRecord(h.marshal(t, v).value))
    ensures h.marshal(t, v).Failure? ==> EncodeValue(h, t, v, false) == Fail(HookFailed(h.marshal(t, v).error))
  {
  }

  /**
   * Through an unexported field, arrays, slices and structs make `reflect`
   * panic; scalars and maps are still written.
   */
  lemma UnexportedFieldPanics(h: Hooks, t: Type, v: Val)
    requires v.VArray? || v.VSlice? || v.VStruct?
    ensures EncodeValue(h, t, v, true) == Fail(Panic)
  {
  }

  /** Zero values are always left out of an object. */
  lemma {:induction false} ZeroIsSkipped(t: Type)
    ensures SkipValue(Zero(t))
  {
    match t
    case Array(n, e) =>
      ZeroIsSkipped(e);
    case Struct(fs, _, _) =>
      forall i | 0 <= i < |fs|
        ensures SkipValue(Zero(t).fields[i])
      {
        ZeroIsSkipped(fs[i].typ);
      }
    case _ =>
  }

  /**
   * For scalars, pointers and interfaces, empty means zero: a field of these
   * kinds is left out exactly when it holds its zero value.
   */
  lemma SkipIsZeroForScalars(t: Type, v: Val)
    requires HasType(t, v)
    requires t.Bool? || t.Int? || t.Uint? || t.String? || t.Ptr? || t.Interface? || t.Other?
    ensures SkipValue(v) <==> v == Zero(t)
  {
  }

  /** An empty, non-nil slice or map is left out though it is not the zero value. */
  lemma EmptyNotZero(t: Type)
    requires t.Slice? || t.Map?
    ensures t.Slice? ==> SkipValue(VSlice(false, [])) && VSlice(false, []) != Zero(t)
    ensures t.Map? ==> SkipValue(VMap(false, [])) && VMap(false, []) != Zero(t)
  {
  }
}
