/**
 * Properties of the decoder: the pointer checks and tag dispatch of
 * `DecodeValue`, the coercion matrix from wire kind to destination shape,
 * what each container destination becomes, and the two readings of `next`.
 */
module DecodingFacts {
  import opened Wrappers
  import opened Tags
  import opened BigEndian
  import opened Strconv
  import opened Reflect
  import opened Decoding
  import EncodingFacts

  // ---------------------------------------------------------------------
  // Dispatch

  /** A non-pointer or nil-pointer destination is refused before any byte is read. */
  lemma DestinationChecks(mode: ReadMode, h: Hooks, t: Type, v: Val, data: seq<byte>, pos: nat)
    requires pos <= |data|
    ensures !t.Ptr? ==> DecodeValue(mode, h, t, v, data, pos) == Dec(v, pos, Some(NonPointer))
    ensures t.Ptr? && !(v.VPtr? && v.target.Some?) ==> DecodeValue(mode, h, t, v, data, pos) == Dec(v, pos, Some(NilPointer))
    ensures Decode(mode, h, None, data, pos) == DecDyn(None, pos, Some(Panic))
  {
  }

  /** With no byte left, reading the tag fails with EOF and the pointee is untouched. */
  lemma EmptyInput(mode: ReadMode, h: Hooks, t: Type, v: Val, data: seq<byte>)
    requires t.Ptr? && v.VPtr? && v.target.Some?
    ensures DecodeValue(mode, h, t, v, data, |data|) == Dec(v, |data|, Some(EOF))
  {
  }

  /** A byte that is no tag is consumed alone and changes nothing. */
  lemma UnknownTag(mode: ReadMode, h: Hooks, t: Type, v: Val, data: seq<byte>, pos: nat)
    requires pos < |data| && Classify(data[pos]) == None
    ensures DecodeRecord(mode, h, t, v, data, pos) == Dec(v, pos + 1, None)
  {
  }

  /** For instance the byte 0x00, which no tag uses. */
  lemma ZeroByteIsNoTag(mode: ReadMode, h: Hooks, t: Type, v: Val)
    ensures DecodeRecord(mode, h, t, v, [0x00], 0) == Dec(v, 1, None)
  {
    TagValues();
  }

  /**
   * A known tag whose header is cut short fails, the destination untouched:
   * EOF when nothing follows the tag, unexpected EOF when only part of it does.
   */
  lemma TruncatedHeader(mode: ReadMode, h: Hooks, t: Type, v: Val, data: seq<byte>, pos: nat, k: Kind)
    requires pos < |data| && Classify(data[pos]) == Some(k) && !k.KNil? && !k.KTrue? && !k.KFalse?
    requires pos + 1 + Bytes(TierOf(k)) > |data|
    ensures var r := DecodeRecord(mode, h, t, v, data, pos);
      r.v == v && r.err == Some(if pos + 1 == |data| then EOF else UnexpectedEOF)
  {
    var x := ReadHeader(data, pos + 1, TierOf(k));
    assert x.err == Some(if pos + 1 == |data| then EOF else UnexpectedEOF);
    if k.KInt? || k.KUint? || k.KFloat? {
      TruncatedNumber(mode, h, t, v, data, pos, k);
    } else {
      TruncatedSized(mode, h, t, v, data, pos, k);
    }
  }

  lemma TruncatedNumber(mode: ReadMode, h: Hooks, t: Type, v: Val, data: seq<byte>, pos: nat, k: Kind)
    requires pos < |data| && (k.KInt? || k.KUint? || k.KFloat?)
    requires ReadHeader(data, pos + 1, TierOf(k)).err.Some?
    ensures var x := ReadHeader(data, pos + 1, TierOf(k));
      DecodeTagged(mode, h, t, v, data, pos, k) == Dec(v, x.pos, x.err)
  {
  }

  lemma TruncatedSized(mode: ReadMode, h: Hooks, t: Type, v: Val, data: seq<byte>, pos: nat, k: Kind)
    requires pos < |data| && (k.KString? || k.KBinary? || k.KArray? || k.KObject?)
    requires ReadHeader(data, pos + 1, TierOf(k)).err.Some?
    ensures var x := ReadHeader(data, pos + 1, TierOf(k));
      DecodeTagged(mode, h, t, v, data, pos, k) == Dec(v, x.pos, x.err)
  {
  }

  /** The byte of a recognised tag. */
  lemma TagAt(data: seq<byte>, pos: nat, k: Kind)
    requires Named(k) && pos < |data| && data[pos] == Tag(k)
    ensures Classify(data[pos]) == Some(k)
  {
    ClassifyTag(k);
  }

  // ---------------------------------------------------------------------
  // Nil

  /**
   * `decodeNil`: interface, pointer, map and slice destinations become
   * their zero (nil) value; every other kind is left as it is. This
   * restates the case rule of DecodeNil as a reference point; what follows
   * from it is in NilRecordDecodes and RoundTrip.RoundTripNil.
   */
  lemma NilClearsSomeShapes(t: Type, v: Val)
    ensures (t.Interface? || t.Ptr? || t.Map? || t.Slice?) ==> DecodeNil(t, v) == Zero(t)
    ensures !(t.Interface? || t.Ptr? || t.Map? || t.Slice?) ==> DecodeNil(t, v) == v
  {
  }

  /** A Nil record is one byte and applies `decodeNil`. */
  lemma NilRecordDecodes(mode: ReadMode, h: Hooks, t: Type, v: Val, data: seq<byte>, pos: nat)
    requires pos < |data| && data[pos] == 0x5A
    ensures DecodeRecord(mode, h, t, v, data, pos) == Dec(DecodeNil(t, v), pos + 1, None)
  {
    TagValues();
    TagAt(data, pos, KNil);
  }

  // ---------------------------------------------------------------------
  // Numbers

  const MaxUint64: nat := 0xFFFF_FFFF_FFFF_FFFF

  /**
   * Crossing signedness reinterprets the 64 bits: `int64` and `uint64`
   * conversions are inverse on their ranges and do no sign check.
   */
  lemma Reinterpret(u: nat, i: int)
    requires u <= MaxUint64 && -Two63 <= i < Two63
    ensures ToUint64(ToInt64(u)) == u
    ensures ToInt64(ToUint64(i)) == i
    ensures ToInt64(MaxUint64) == -1 && ToUint64(-1) == MaxUint64
  {
    Pow256Values();
    var m := Pow256(8);
    assert u % m == u;
    if u >= m / 2 {
      LemmaFundamentalDivMod(u - m, m, -1, u);
    } else {
      LemmaFundamentalDivMod(u, m, 0, u);
    }
    SignedUnsigned(i, 8);
    assert Unsigned(i, 8) < m;
    assert Unsigned(i, 8) % m == Unsigned(i, 8);
    LemmaFundamentalDivMod(-1, m, -1, m - 1);
  }

  /**
   * An integer wire value into a signed destination of the given width:
   * taken as int64 (a uint64 reinterpreted), stored if it fits, otherwise a
   * type error with the destination unchanged. This restates the case rule
   * of DecodeNumber; the content is in Reinterpret, CrossSignExamples and
   * the integer round trips RoundTrip.RoundTripInt and RoundTrip.RoundTripUint.
   */
  lemma NumberIntoSigned(bits: nat, v: Val, x: Num)
    requires !x.NFloat?
    ensures var n := if x.NInt? then x.i else ToInt64(x.u);
      var r := DecodeNumber(Int(bits), v, x);
      (r.err.None? <==> FitsInt(n, bits)) &&
      (r.err.None? ==> r.v == VInt(n)) &&
      (r.err.Some? ==> r.v == v && r.err == Some(TypeMismatch(Int(bits))))
  {
  }

  /** The same for an unsigned destination, through uint64; also a restatement of the case rule. */
  lemma NumberIntoUnsigned(bits: nat, v: Val, x: Num)
    requires !x.NFloat?
    ensures var n := if x.NUint? then x.u else ToUint64(x.i);
      var r := DecodeNumber(Uint(bits), v, x);
      (r.err.None? <==> FitsUint(n, bits)) &&
      (r.err.None? ==> r.v == VUint(n)) &&
      (r.err.Some? ==> r.v == v && r.err == Some(TypeMismatch(Uint(bits))))
  {
  }

  /** MaxUint64 read into an int64 is -1; -1 read into a uint64 is MaxUint64; 256 overflows a uint8. */
  lemma CrossSignExamples(v: Val)
    ensures DecodeNumber(Int(64), v, NUint(MaxUint64)) == Out(VInt(-1), None)
    ensures DecodeNumber(Uint(64), v, NInt(-1)) == Out(VUint(MaxUint64), None)
    ensures DecodeNumber(Uint(8), v, NUint(256)) == Out(v, Some(TypeMismatch(Uint(8))))
    ensures DecodeNumber(Int(8), v, NInt(-129)) == Out(v, Some(TypeMismatch(Int(8))))
  {
    Reinterpret(MaxUint64, -1);
    EncodingFacts.ModulusValues();
    Pow256Values();
  }

  // ---------------------------------------------------------------------
  // Text

  /** Text into a `[]T` with T other than uint8 fails before the payload is read. */
  lemma TextIntoOtherSlice(mode: ReadMode, t: Type, v: Val, data: seq<byte>, pos: nat, n: nat)
    requires pos <= |data| && t.Slice? && t.elem != Uint(8)
    ensures DecodeString(mode, t, v, data, pos, n) == Dec(v, pos, Some(TypeMismatch(t)))
  {
  }

  /** Text into a string, or a `[]byte`, stores the raw payload bytes. */
  lemma TextIntoStringOrBytes(v: Val, data: seq<byte>, pos: nat, n: nat)
    requires pos + n <= |data|
    ensures DecodeString(FullRead, String, v, data, pos, n) == Dec(VString(data[pos..pos + n]), pos + n, None)
    ensures DecodeString(FullRead, ByteSlice, v, data, pos, n) == Dec(BytesVal(data[pos..pos + n]), pos + n, None)
  {
  }

  /**
   * Text into a bool, int or uint destination is parsed (base 10 for the
   * integers); a parse failure or a value too wide for the destination is
   * a type error that leaves the destination unchanged.
   */
  lemma TextParsed(v: Val, data: seq<byte>, pos: nat, n: nat, bits: nat)
    requires pos + n <= |data|
    ensures var s := data[pos..pos + n];
      var rb := DecodeString(FullRead, Bool, v, data, pos, n);
      var ri := DecodeString(FullRead, Int(bits), v, data, pos, n);
      var ru := DecodeString(FullRead, Uint(bits), v, data, pos, n);
      rb.pos == ri.pos == ru.pos == pos + n &&
      (rb.err.None? <==> ParseBool(s).Some?) &&
      (rb.err.None? ==> rb.v == VBool(ParseBool(s).value)) &&
      (ri.err.None? <==> ParseInt(s).Some? && FitsInt(ParseInt(s).value, bits)) &&
      (ri.err.None? ==> ri.v == VInt(ParseInt(s).value)) &&
      (ru.err.None? <==> ParseUint(s).Some? && FitsUint(ParseUint(s).value, bits)) &&
      (ru.err.None? ==> ru.v == VUint(ParseUint(s).value)) &&
      (rb.err.Some? ==> rb.v == v && rb.err == Some(TypeMismatch(Bool))) &&
      (ri.err.Some? ==> ri.v == v && ri.err == Some(TypeMismatch(Int(bits)))) &&
      (ru.err.Some? ==> ru.v == v && ru.err == Some(TypeMismatch(Uint(bits))))
  {
  }

  // ---------------------------------------------------------------------
  // Interfaces

  /**
   * An interface with methods rejects bool, number, text, binary, array and
   * object records with a type error, reading no payload.
   */
  lemma NonEmptyInterfaceRejects(mode: ReadMode, h: Hooks, m: nat, v: Val, data: seq<byte>, pos: nat, n: nat, b: bool, x: Num)
    requires m != 0 && pos <= |data|
    ensures var t := Interface(m);
      DecodeBool(t, v, b) == Mismatch(t, v) &&
      DecodeNumber(t, v, x) == Mismatch(t, v) &&
      DecodeString(mode, t, v, data, pos, n) == Fin(Mismatch(t, v), pos) &&
      DecodeBinary(mode, h, t, v, data, pos, n) == Fin(Mismatch(t, v), pos) &&
      DecodeArray(mode, h, t, v, data, pos, n) == Fin(Mismatch(t, v), pos) &&
      DecodeObject(mode, h, t, v, data, pos, n) == Fin(Mismatch(t, v), pos)
  {
  }

  /**
   * `interface{}` receives a bool, an int64 or uint64, a string or a
   * `[]byte` as the wire kind dictates.
   */
  lemma EmptyInterfaceScalars(v: Val, b: bool, i: int, u: nat, data: seq<byte>, pos: nat, n: nat)
    requires pos + n <= |data|
    ensures DecodeBool(Any, v, b) == Out(VIface(Some(Dyn(Bool, VBool(b)))), None)
    ensures DecodeNumber(Any, v, NInt(i)) == Out(VIface(Some(Dyn(Int(64), VInt(i)))), None)
    ensures DecodeNumber(Any, v, NUint(u)) == Out(VIface(Some(Dyn(Uint(64), VUint(u)))), None)
    ensures DecodeString(FullRead, Any, v, data, pos, n)
         == Dec(VIface(Some(Dyn(String, VString(data[pos..pos + n])))), pos + n, None)
  {
  }

  /** ... and a Binary record as a `[]byte`. */
  lemma EmptyInterfaceBinary(h: Hooks, v: Val, data: seq<byte>, pos: nat, n: nat)
    requires pos + n <= |data|
    ensures DecodeBinary(FullRead, h, Any, v, data, pos, n)
         == Dec(VIface(Some(Dyn(ByteSlice, BytesVal(data[pos..pos + n])))), pos + n, None)
  {
  }

  /**
   * An array record into `interface{}` yields a fresh `[]interface{}` of
   * the count's length, an object record a fresh `map[interface{}]interface{}`;
   * on failure the interface is left as it was.
   */
  lemma EmptyInterfaceContainers(mode: ReadMode, h: Hooks, v: Val, data: seq<byte>, pos: nat, n: nat)
    requires pos <= |data|
    ensures var r := DecodeArray(mode, h, Any, v, data, pos, n);
      (r.err.None? ==> r.v.VIface? && r.v.dyn.Some? && r.v.dyn.value.typ == Slice(Any) &&
                       r.v.dyn.value.val.VSlice? && !r.v.dyn.value.val.isNil && |r.v.dyn.value.val.items| == n) &&
      (r.err.Some? ==> r.v == v)
    ensures var r := DecodeObject(mode, h, Any, v, data, pos, n);
      (r.err.None? ==> r.v.VIface? && r.v.dyn.Some? && r.v.dyn.value.typ == Map(Any, Any) &&
                       r.v.dyn.value.val.VMap? && !r.v.dyn.value.val.mapNil) &&
      (r.err.Some? ==> r.v == v)
  {
  }

  // ---------------------------------------------------------------------
  // Arrays and slices

  /** `decodeArrayItems` changes only the elements i..n-1 it decodes. */
  lemma {:induction false} ItemsFrame(mode: ReadMode, h: Hooks, e: Type, items: seq<Val>, i: nat, n: nat, data: seq<byte>, pos: nat)
    requires i <= n <= |items| && pos <= |data|
    decreases |data| - pos, n - i
    ensures var r := DecodeItems(mode, h, e, items, i, n, data, pos);
      forall k :: 0 <= k < |items| && !(i <= k < n) ==> r.items[k] == items[k]
  {
    if i < n {
      var x := DecodeRecord(mode, h, e, items[i], data, pos);
      if x.err.None? {
        ItemsFrame(mode, h, e, items[i := x.v], i + 1, n, data, x.pos);
      }
    }
  }

  /** A fixed array shorter than the count is a type error before any element is read. */
  lemma ArrayTooShort(mode: ReadMode, h: Hooks, len: nat, e: Type, v: Val, data: seq<byte>, pos: nat, n: nat)
    requires pos <= |data| && n > len
    ensures DecodeArray(mode, h, Array(len, e), v, data, pos, n) == Dec(v, pos, Some(TypeMismatch(Array(len, e))))
  {
  }

  /**
   * A fixed array that holds the count keeps its length; on success the
   * slots from n on hold the element's zero value, and on failure the
   * slots past n keep their old values.
   */
  lemma ArrayZeroFill(mode: ReadMode, h: Hooks, len: nat, e: Type, v: Val, data: seq<byte>, pos: nat, n: nat)
    requires pos <= |data| && n <= len
    ensures var r := DecodeArray(mode, h, Array(len, e), v, data, pos, n);
      r.v.VArray? && |r.v.items| == len &&
      (r.err.None? ==> forall k :: n <= k < len ==> r.v.items[k] == Zero(e)) &&
      (r.err.Some? ==> forall k :: n <= k < len ==> r.v.items[k] == ArrayItems(v, len, e)[k])
  {
    ItemsFrame(mode, h, e, ArrayItems(v, len, e), 0, n, data, pos);
  }

  /**
   * A slice destination ends with exactly the count's length, even when an
   * element fails; it stays nil only for a nil slice and a count of 0.
   */
  lemma SliceExactLength(mode: ReadMode, h: Hooks, e: Type, v: Val, data: seq<byte>, pos: nat, n: nat)
    requires pos <= |data|
    ensures var r := DecodeArray(mode, h, Slice(e), v, data, pos, n);
      r.v.VSlice? && |r.v.items| == n &&
      (r.v.isNil <==> n == 0 && (!v.VSlice? || v.isNil))
  {
  }

  // ---------------------------------------------------------------------
  // Maps

  /** `SetMapIndex` stores x under k, and every other key keeps its element. */
  lemma {:induction false} MapInsertLookup(es: seq<Entry>, k: Val, x: Val, k': Val)
    decreases |es|
    ensures Lookup(MapInsert(es, k, x), k) == Some(x)
    ensures k' != k ==> Lookup(MapInsert(es, k, x), k') == Lookup(es, k')
  {
    if es != [] && es[0].key != k {
      MapInsertLookup(es[1..], k, x, k');
      assert MapInsert(es, k, x)[1..] == MapInsert(es[1..], k, x);
    }
  }

  /** The keys of a map after `SetMapIndex`: the old keys and k. */
  lemma {:induction false} MapInsertKeys(es: seq<Entry>, k: Val, x: Val)
    decreases |es|
    ensures forall j :: 0 <= j < |MapInsert(es, k, x)| ==>
      MapInsert(es, k, x)[j].key == k || exists l :: 0 <= l < |es| && es[l].key == MapInsert(es, k, x)[j].key
    ensures |es| <= |MapInsert(es, k, x)| <= |es| + 1
  {
    if es != [] && es[0].key != k {
      MapInsertKeys(es[1..], k, x);
      var r := MapInsert(es, k, x);
      forall j | 0 <= j < |r| && r[j].key != k
        ensures exists l :: 0 <= l < |es| && es[l].key == r[j].key
      {
        if j == 0 {
          assert es[0].key == r[j].key;
        } else {
          assert r[j] == MapInsert(es[1..], k, x)[j - 1];
          var l :| 0 <= l < |es[1..]| && es[1..][l].key == r[j].key;
          assert es[l + 1].key == r[j].key;
        }
      }
    }
  }

  /** `SetMapIndex` keeps keys distinct. */
  lemma {:induction false} MapInsertDistinct(es: seq<Entry>, k: Val, x: Val)
    requires DistinctKeys(es)
    decreases |es|
    ensures DistinctKeys(MapInsert(es, k, x))
  {
    if es != [] {
      var r := MapInsert(es, k, x);
      if es[0].key == k {
        assert forall j :: 0 < j < |r| ==> r[j] == es[j];
        forall i, j | 0 <= i < j < |r|
          ensures KeysDiffer(r, i, j)
        {
          assert KeysDiffer(es, i, j);
        }
      } else {
        var r' := MapInsert(es[1..], k, x);
        forall i, j | 0 <= i < j < |es[1..]|
          ensures KeysDiffer(es[1..], i, j)
        {
          assert KeysDiffer(es, i + 1, j + 1);
        }
        MapInsertDistinct(es[1..], k, x);
        MapInsertKeys(es[1..], k, x);
        forall i, j | 0 <= i < j < |r|
          ensures KeysDiffer(r, i, j)
        {
          assert r[j] == r'[j - 1];
          if i == 0 {
            if r[j].key != k {
              var l :| 0 <= l < |es[1..]| && es[1..][l].key == r[j].key;
              assert es[l + 1].key == r[j].key;
              assert KeysDiffer(es, 0, l + 1);
            }
          } else {
            assert r[i] == r'[i - 1];
            assert KeysDiffer(r', i - 1, j - 1);
          }
        }
      }
    }
  }

  /** The entry loop keeps keys distinct and stores at most one entry per pair. */
  lemma {:induction false} EntriesDistinct(mode: ReadMode, h: Hooks, kt: Type, et: Type, es: seq<Entry>, i: nat, n: nat, data: seq<byte>, pos: nat)
    requires i <= n && pos <= |data| && DistinctKeys(es)
    decreases |data| - pos, n - i
    ensures var r := DecodeEntries(mode, h, kt, et, es, i, n, data, pos);
      DistinctKeys(r.entries) && |r.entries| <= |es| + (n - i)
  {
    if i < n {
      var k := DecodeRecord(mode, h, kt, Zero(kt), data, pos);
      if k.err.None? {
        var x := DecodeRecord(mode, h, et, Zero(et), data, k.pos);
        if x.err.None? && Hashable(k.v) {
          MapInsertDistinct(es, k.v, x.v);
          MapInsertKeys(es, k.v, x.v);
          EntriesDistinct(mode, h, kt, et, MapInsert(es, k.v, x.v), i + 1, n, data, x.pos);
        }
      }
    }
  }

  /**
   * A map destination is emptied (or allocated when nil) before it is
   * filled: the result does not depend on the old entries, is never nil,
   * and holds distinct keys, at most one per pair read.
   */
  lemma MapClearedThenFilled(mode: ReadMode, h: Hooks, kt: Type, et: Type, v: Val, v': Val, data: seq<byte>, pos: nat, n: nat)
    requires pos <= |data|
    ensures var r := DecodeObject(mode, h, Map(kt, et), v, data, pos, n);
      r == DecodeObject(mode, h, Map(kt, et), v', data, pos, n) &&
      r.v.VMap? && !r.v.mapNil && DistinctKeys(r.v.entries) && |r.v.entries| <= n
  {
    EntriesDistinct(mode, h, kt, et, [], 0, n, data, pos);
  }

  // ---------------------------------------------------------------------
  // Structs

  /** The field loop changes only exported fields from j on that carry the key's name. */
  lemma {:induction false} FieldLoopFrame(mode: ReadMode, h: Hooks, fs: seq<Field>, xs: seq<Val>, name: seq<byte>, j: nat, matched: bool, data: seq<byte>, pos: nat)
    requires j <= |fs| && |xs| == |fs| && pos <= |data|
    decreases |data| - pos, |fs| - j
    ensures var r := FieldLoop(mode, h, fs, xs, name, j, matched, data, pos);
      forall k :: 0 <= k < |fs| && !(j <= k && fs[k].exported && fs[k].name == name) ==> r.xs[k] == xs[k]
  {
    if j < |fs| {
      if fs[j].name == name && fs[j].exported {
        var x := DecodeRecord(mode, h, fs[j].typ, xs[j], data, pos);
        if x.err.None? {
          FieldLoopFrame(mode, h, fs, xs[j := x.v], name, j + 1, true, data, x.pos);
        }
      } else {
        FieldLoopFrame(mode, h, fs, xs, name, j + 1, matched, data, pos);
      }
    }
  }

  /**
   * After a field loop that did not fail, `decoded` is set exactly when
   * some settable field from j on carries the key's name.
   */
  lemma {:induction false} FieldLoopMatched(mode: ReadMode, h: Hooks, fs: seq<Field>, xs: seq<Val>, name: seq<byte>, j: nat, matched: bool, data: seq<byte>, pos: nat)
    requires j <= |fs| && |xs| == |fs| && pos <= |data|
    decreases |data| - pos, |fs| - j
    ensures var r := FieldLoop(mode, h, fs, xs, name, j, matched, data, pos);
      r.err.None? ==> (r.matched <==> matched || exists k :: j <= k < |fs| && fs[k].name == name && fs[k].exported)
  {
    if j < |fs| {
      if fs[j].name == name && fs[j].exported {
        var x := DecodeRecord(mode, h, fs[j].typ, xs[j], data, pos);
        if x.err.None? {
          FieldLoopMatched(mode, h, fs, xs[j := x.v], name, j + 1, true, data, x.pos);
        }
      } else {
        FieldLoopMatched(mode, h, fs, xs, name, j + 1, matched, data, pos);
      }
    }
  }

  /** A key naming no exported field from j on reads nothing and matches nothing. */
  lemma {:induction false} FieldLoopNoMatch(mode: ReadMode, h: Hooks, fs: seq<Field>, xs: seq<Val>, name: seq<byte>, j: nat, matched: bool, data: seq<byte>, pos: nat)
    requires j <= |fs| && |xs| == |fs| && pos <= |data|
    requires forall k :: j <= k < |fs| ==> !(fs[k].exported && fs[k].name == name)
    decreases |fs| - j
    ensures FieldLoop(mode, h, fs, xs, name, j, matched, data, pos) == DecFields(xs, pos, None, matched)
  {
    if j < |fs| {
      FieldLoopNoMatch(mode, h, fs, xs, name, j + 1, matched, data, pos);
    }
  }

  /** Unexported fields are never set by the key loop. */
  lemma {:induction false} FieldsFrame(mode: ReadMode, h: Hooks, st: Type, fs: seq<Field>, xs: seq<Val>, i: nat, n: nat, data: seq<byte>, pos: nat)
    requires i <= n && |xs| == |fs| && pos <= |data|
    decreases |data| - pos, n - i
    ensures var r := DecodeFields(mode, h, st, fs, xs, i, n, data, pos);
      forall k :: 0 <= k < |fs| && !fs[k].exported ==> r.items[k] == xs[k]
  {
    if i < n {
      var k := DecodeRecord(mode, h, String, VString([]), data, pos);
      if k.err.None? {
        var name := if k.v.VString? then k.v.s else [];
        FieldLoopFrame(mode, h, fs, xs, name, 0, false, data, k.pos);
        var f := FieldLoop(mode, h, fs, xs, name, 0, false, data, k.pos);
        if f.err.None? && f.matched {
          FieldsFrame(mode, h, st, fs, f.xs, i + 1, n, data, f.pos);
        }
      }
    }
  }

  /** A key that names no settable field is a type error, right after the key. */
  lemma UnknownKeyRejected(mode: ReadMode, h: Hooks, st: Type, fs: seq<Field>, xs: seq<Val>, i: nat, n: nat, data: seq<byte>, pos: nat, name: seq<byte>, q: nat)
    requires i < n && |xs| == |fs| && pos <= |data|
    requires DecodeRecord(mode, h, String, VString([]), data, pos) == Dec(VString(name), q, None)
    requires forall k :: 0 <= k < |fs| ==> !(fs[k].exported && fs[k].name == name)
    ensures DecodeFields(mode, h, st, fs, xs, i, n, data, pos) == DecItems(xs, q, Some(TypeMismatch(st)))
  {
    FieldLoopNoMatch(mode, h, fs, xs, name, 0, false, data, q);
  }

  /**
   * An object record into a struct decodes into a fresh zero struct: on
   * success that replaces the destination, whatever it held, and its
   * unexported fields are zero; on failure the destination is unchanged.
   */
  lemma StructFresh(mode: ReadMode, h: Hooks, t: Type, v: Val, v': Val, data: seq<byte>, pos: nat, n: nat)
    requires t.Struct? && pos <= |data|
    ensures var r := DecodeObject(mode, h, t, v, data, pos, n);
      (r.err.Some? ==> r.v == v) &&
      (r.err.None? ==>
         r == DecodeObject(mode, h, t, v', data, pos, n) &&
         r.v.VStruct? && |r.v.fields| == |t.fields| &&
         forall k :: 0 <= k < |t.fields| && !t.fields[k].exported ==> r.v.fields[k] == Zero(t.fields[k].typ))
  {
    FieldsFrame(mode, h, t, t.fields, Zero(t).fields, 0, n, data, pos);
  }

  /** An empty object into a struct yields its zero value. */
  lemma EmptyObjectIntoStruct(mode: ReadMode, h: Hooks, t: Type, v: Val, data: seq<byte>, pos: nat)
    requires t.Struct? && pos <= |data|
    ensures DecodeObject(mode, h, t, v, data, pos, 0) == Dec(Zero(t), pos, None)
  {
  }

  // ---------------------------------------------------------------------
  // Pointers

  /**
   * `indirect`: decoding through a pointer works on its pointee, or on a
   * fresh zero value when it is nil; the pointer ends up non-nil even when
   * the inner decode fails.
   */
  lemma IndirectAllocates(mode: ReadMode, h: Hooks, e: Type, data: seq<byte>, pos: nat, b: bool, x: Num)
    requires pos <= |data|
    ensures DecodeBool(Ptr(e), VPtr(None), b) == Out(VPtr(Some(DecodeBool(e, Zero(e), b).v)), DecodeBool(e, Zero(e), b).err)
    ensures DecodeNumber(Ptr(e), VPtr(None), x) == Out(VPtr(Some(DecodeNumber(e, Zero(e), x).v)), DecodeNumber(e, Zero(e), x).err)
    ensures var r := DecodeArray(mode, h, Ptr(e), VPtr(None), data, pos, 0); r.v.VPtr? && r.v.target.Some?
  {
  }

  // ---------------------------------------------------------------------
  // next: one Read call versus a full read

  /**
   * A full read fails on a payload cut short; both modes agree whenever the
   * payload is fully present and not empty.
   */
  lemma ReadModes(data: seq<byte>, pos: nat, n: nat)
    requires pos <= |data|
    ensures pos + n > |data| ==> Next(FullRead, data, pos, n).err.Some?
    ensures n > 0 && pos + n <= |data| ==> Next(SingleRead, data, pos, n) == Next(FullRead, data, pos, n)
  {
    if n > 0 && pos + n <= |data| {
      assert Zeros(0) == [];
      assert data[pos..pos + n] + Zeros(0) == data[pos..pos + n];
    }
  }

  /**
   * As written, `next` makes a single `Read` call: the empty string as the
   * last record ([0x53, 0x00]) fails with EOF although it is complete.
   * Read fully, it decodes to the empty string.
   */
  lemma EmptyTextAtEnd(h: Hooks)
    ensures DecodeValue(SingleRead, h, Ptr(String), VPtr(Some(VString([0x61]))), [0x53, 0x00], 0).err == Some(EOF)
    ensures DecodeValue(FullRead, h, Ptr(String), VPtr(Some(VString([0x61]))), [0x53, 0x00], 0)
         == Dec(VPtr(Some(VString([]))), 2, None)
  {
    var data: seq<byte> := [0x53, 0x00];
    TagValues();
    TagAt(data, 0, KString(W8));
    assert data[1..2] == [0];
    assert ReadHeader(data, 1, W8) == Header(0, 2, None);
    assert data[2..2] == [];
  }

  /**
   * The single `Read` call fails at the end of input only for an empty
   * payload: "abc" as the last record ([0x53, 0x03, 0x61, 0x62, 0x63])
   * decodes as written, exactly as it does read fully.
   */
  lemma TextAtEnd(h: Hooks, mode: ReadMode)
    ensures DecodeValue(mode, h, Ptr(String), VPtr(Some(VString([]))), [0x53, 0x03, 0x61, 0x62, 0x63], 0)
         == Dec(VPtr(Some(VString([0x61, 0x62, 0x63]))), 5, None)
  {
    var data: seq<byte> := [0x53, 0x03, 0x61, 0x62, 0x63];
    TagValues();
    TagAt(data, 0, KString(W8));
    assert data[1..2] == [3];
    assert ReadHeader(data, 1, W8) == Header(3, 2, None);
    assert data[2..5] + Zeros(0) == data[2..5] == [0x61, 0x62, 0x63];
  }

  /**
   * As written, a payload cut short is zero-padded without error: a Text
   * record announcing 3 bytes of which only "a" is present decodes to
   * "a\0\0". Read fully, it fails with unexpected EOF.
   */
  lemma TruncatedTextPadded(h: Hooks)
    ensures DecodeValue(SingleRead, h, Ptr(String), VPtr(Some(VString([]))), [0x53, 0x03, 0x61], 0)
         == Dec(VPtr(Some(VString([0x61, 0x00, 0x00]))), 3, None)
    ensures DecodeValue(FullRead, h, Ptr(String), VPtr(Some(VString([]))), [0x53, 0x03, 0x61], 0).err == Some(UnexpectedEOF)
  {
    var data: seq<byte> := [0x53, 0x03, 0x61];
    TagValues();
    TagAt(data, 0, KString(W8));
    assert data[1..2] == [3];
    assert ReadHeader(data, 1, W8) == Header(3, 2, None);
    assert data[2..3] + Zeros(2) == [0x61, 0x00, 0x00];
  }
}
