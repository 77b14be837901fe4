/**
 * The Decoder: a reader over fixed input bytes whose cursor is the only
 * state that changes, and the methods that decode records from it. A
 * destination is passed in as the value it currently holds and comes back
 * as the value the decoder leaves in it. Each method is proved to compute
 * exactly the result, cursor and error of the matching function of module
 * Decoding.
 */
module Decoders {
  import opened Wrappers
  import opened Tags
  import opened BigEndian
  import opened Strconv
  import opened Reflect
  import opened Decoding

  /** `SetMapIndex(k, reflect.Value{})`: every entry with key k removed. */
  function MapDelete(es: seq<Entry>, k: Val): (r: seq<Entry>)
    ensures forall en :: en in r <==> en in es && en.key != k
  {
    if es == [] then []
    else if es[0].key == k then MapDelete(es[1..], k)
    else [es[0]] + MapDelete(es[1..], k)
  }

  /** `MapKeys()`: the keys of the entries, in entry order. */
  function MapKeys(es: seq<Entry>): (r: seq<Val>)
    ensures |r| == |es| && forall j :: 0 <= j < |es| ==> r[j] == es[j].key
  {
    seq(|es|, j requires 0 <= j < |es| => es[j].key)
  }

  /** The entries whose key is none of ks, in entry order. */
  function Strip(es: seq<Entry>, ks: seq<Val>): (r: seq<Entry>)
    ensures ks == [] ==> r == es
  {
    if es == [] then []
    else if es[0].key in ks then Strip(es[1..], ks)
    else [es[0]] + Strip(es[1..], ks)
  }

  /** Deleting one more key strips it as well. */
  lemma {:induction false} StripDelete(es: seq<Entry>, ks: seq<Val>, k: Val)
    ensures MapDelete(Strip(es, ks), k) == Strip(es, ks + [k])
  {
    if es != [] {
      StripDelete(es[1..], ks, k);
      if es[0].key !in ks {
        assert ([es[0]] + Strip(es[1..], ks))[1..] == Strip(es[1..], ks);
      }
    }
  }

  /** Stripping every key of the entries leaves none. */
  lemma {:induction false} StripAll(es: seq<Entry>, ks: seq<Val>)
    requires forall j :: 0 <= j < |es| ==> es[j].key in ks
    ensures Strip(es, ks) == []
  {
    if es != [] {
      StripAll(es[1..], ks);
    }
  }

  /**
   * The first loop of `decodeObject` on a non-nil map: every key listed by
   * `MapKeys` is deleted in turn, which leaves the map empty.
   */
  method ClearMap(es: seq<Entry>) returns (r: seq<Entry>)
    ensures r == []
  {
    r := es;
    var keys := MapKeys(es);
    var i := 0;
    while i < |keys|
      invariant 0 <= i <= |keys|
      invariant r == Strip(es, keys[..i])
    {
      assert keys[..i + 1] == keys[..i] + [keys[i]];
      StripDelete(es, keys[..i], keys[i]);
      r := MapDelete(r, keys[i]);
      i := i + 1;
    }
    assert keys[..i] == keys;
    StripAll(es, keys);
  }

  class Decoder {
    /** How `next` reads: one `Read` call as written, or `io.ReadFull`. */
    const mode: ReadMode
    const h: Hooks
    /** The bytes behind the `bytes.Reader`. */
    const data: seq<byte>
    /** The reader's cursor. */
    var pos: nat

    predicate Valid()
      reads this
    {
      pos <= |data|
    }

    /** `NewDecoder(bytes.NewReader(data))`. */
    constructor (mode: ReadMode, h: Hooks, data: seq<byte>)
      ensures this.mode == mode && this.h == h && this.data == data && pos == 0
      ensures Valid()
    {
      this.mode := mode;
      this.h := h;
      this.data := data;
      pos := 0;
    }

    /** `read` of one fixed-width big-endian value, through `io.ReadFull`. */
    method Read(w: Width) returns (x: nat, err: Option<Error>)
      requires Valid()
      modifies this
      ensures Valid()
      ensures Header(x, pos, err) == ReadHeader(data, old(pos), w)
    {
      var n := Bytes(w);
      if pos + n <= |data| {
        x := FromBE(data[pos..pos + n]);
        pos := pos + n;
        err := None;
      } else if pos == |data| {
        x, err := 0, Some(EOF);
      } else {
        x, err := 0, Some(UnexpectedEOF);
        pos := |data|;
      }
    }

    /** `next(n)`: a buffer of n bytes filled by the reader. */
    method Next(n: nat) returns (bs: seq<byte>, err: Option<Error>)
      requires Valid()
      modifies this
      ensures Valid()
      ensures Chunk(bs, pos, err) == Decoding.Next(mode, data, old(pos), n)
    {
      if mode == FullRead {
        if pos + n <= |data| {
          bs, err := data[pos..pos + n], None;
          pos := pos + n;
        } else if pos == |data| {
          bs, err := [], Some(EOF);
        } else {
          bs, err := [], Some(UnexpectedEOF);
          pos := |data|;
        }
      } else {
        if pos == |data| {
          bs, err := [], Some(EOF);
        } else {
          var m := if pos + n <= |data| then n else |data| - pos;
          bs, err := data[pos..pos + m] + Zeros(n - m), None;
          pos := pos + m;
        }
      }
    }

    /** `decodeString`: the payload into the kinds that accept text. */
    method DecodeString(t: Type, v: Val, n: nat) returns (r: Val, err: Option<Error>)
      requires Valid()
      modifies this
      decreases t
      ensures Valid()
      ensures Dec(r, pos, err) == Decoding.DecodeString(mode, t, v, data, old(pos), n)
    {
      match t
      case String =>
        var bs, e := Next(n);
        if e.Some? {
          r, err := v, e;
        } else {
          r, err := VString(bs), None;
        }
      case Slice(el) =>
        if el != Uint(8) {
          r, err := v, Some(TypeMismatch(t));
          return;
        }
        var bs, e := Next(n);
        if e.Some? {
          r, err := v, e;
        } else {
          r, err := BytesVal(bs), None;
        }
      case Bool =>
        var bs, e := Next(n);
        if e.Some? {
          r, err := v, e;
          return;
        }
        match ParseBool(bs) {
          case None => r, err := v, Some(TypeMismatch(t));
          case Some(b) => r, err := VBool(b), None;
        }
      case Int(bits) =>
        var bs, e := Next(n);
        if e.Some? {
          r, err := v, e;
          return;
        }
        match ParseInt(bs) {
          case None => r, err := v, Some(TypeMismatch(t));
          case Some(i) =>
            if FitsInt(i, bits) {
              r, err := VInt(i), None;
            } else {
              r, err := v, Some(TypeMismatch(t));
            }
        }
      case Uint(bits) =>
        var bs, e := Next(n);
        if e.Some? {
          r, err := v, e;
          return;
        }
        match ParseUint(bs) {
          case None => r, err := v, Some(TypeMismatch(t));
          case Some(u) =>
            if FitsUint(u, bits) {
              r, err := VUint(u), None;
            } else {
              r, err := v, Some(TypeMismatch(t));
            }
        }
      case Interface(m) =>
        if m != 0 {
          r, err := v, Some(TypeMismatch(t));
          return;
        }
        var bs, e := Next(n);
        if e.Some? {
          r, err := v, e;
        } else {
          r, err := VIface(Some(Dyn(String, VString(bs)))), None;
        }
      case Ptr(el) =>
        var x, e := DecodeString(el, Pointee(t, v), n);
        r, err := VPtr(Some(x)), e;
      case _ =>
        r, err := v, Some(TypeMismatch(t));
    }

    /** `decodeBinary`: the payload into a `[]byte`, an empty interface or an `UnmarshalBinary` hook. */
    method DecodeBinary(t: Type, v: Val, n: nat) returns (r: Val, err: Option<Error>)
      requires Valid()
      modifies this
      decreases t
      ensures Valid()
      ensures Dec(r, pos, err) == Decoding.DecodeBinary(mode, h, t, v, data, old(pos), n)
    {
      match t
      case Slice(el) =>
        if el != Uint(8) {
          r, err := v, Some(TypeMismatch(t));
          return;
        }
        var bs, e := Next(n);
        if e.Some? {
          r, err := v, e;
        } else {
          r, err := BytesVal(bs), None;
        }
      case Interface(m) =>
        if m != 0 {
          r, err := v, Some(TypeMismatch(t));
          return;
        }
        var bs, e := Next(n);
        if e.Some? {
          r, err := v, e;
        } else {
          r, err := VIface(Some(Dyn(ByteSlice, BytesVal(bs)))), None;
        }
      case Struct(_, _, unmarshaler) =>
        if !unmarshaler {
          r, err := v, Some(TypeMismatch(t));
          return;
        }
        var bs, e := Next(n);
        if e.Some? {
          r, err := v, e;
          return;
        }
        var u := h.unmarshal(t, v, bs);
        r := u.v;
        err := if u.err.Some? then Some(HookFailed(u.err.value)) else None;
      case Ptr(el) =>
        var x, e := DecodeBinary(el, Pointee(t, v), n);
        r, err := VPtr(Some(x)), e;
      case _ =>
        r, err := v, Some(TypeMismatch(t));
    }

    /**
     * `DecodeValue` past its pointer checks: one `Read` of the tag byte,
     * then the record's header and the coercion its tag selects. An unknown
     * tag is consumed and changes nothing.
     */
    method DecodeRecord(t: Type, v: Val) returns (r: Val, err: Option<Error>)
      requires Valid()
      modifies this
      decreases |data| - pos, 0, 2
      ensures Valid()
      ensures Dec(r, pos, err) == Decoding.DecodeRecord(mode, h, t, v, data, old(pos))
    {
      if pos == |data| {
        r, err := v, Some(EOF);
        return;
      }
      var k := Classify(data[pos]);
      if k.None? {
        pos := pos + 1;
        r, err := v, None;
        return;
      }
      r, err := DecodeTagged(t, v, k.value);
    }

    /** The switch of `DecodeValue` on the known tag k at the cursor: its header, then its payload or items. */
    method DecodeTagged(t: Type, v: Val, k: Kind) returns (r: Val, err: Option<Error>)
      requires Valid() && pos < |data|
      modifies this
      decreases |data| - pos, 0, 1
      ensures Valid()
      ensures Dec(r, pos, err) == Decoding.DecodeTagged(mode, h, t, v, data, old(pos), k)
    {
      if k.KNil? {
        pos := pos + 1;
        r, err := DecodeNil(t, v), None;
      } else if k.KTrue? || k.KFalse? {
        pos := pos + 1;
        var o := DecodeBool(t, v, k.KTrue?);
        r, err := o.v, o.err;
      } else if k.KInt? || k.KUint? || k.KFloat? {
        r, err := DecodeNumeric(t, v, k);
      } else if k.KString? || k.KBinary? {
        r, err := DecodeText(t, v, k);
      } else {
        r, err := DecodeContainer(t, v, k);
      }
    }

    /** The numeric cases of the switch: the header is the number itself. */
    method DecodeNumeric(t: Type, v: Val, k: Kind) returns (r: Val, err: Option<Error>)
      requires Valid() && pos < |data|
      requires k.KInt? || k.KUint? || k.KFloat?
      modifies this
      decreases |data| - pos, 0, 0
      ensures Valid()
      ensures Dec(r, pos, err) == Decoding.DecodeTagged(mode, h, t, v, data, old(pos), k)
    {
      pos := pos + 1;
      var x, e := Read(k.w);
      if e.Some? {
        r, err := v, e;
        return;
      }
      var o;
      if k.KInt? {
        o := DecodeNumber(t, v, NInt(Signed(x, Bytes(k.w))));
      } else if k.KUint? {
        o := DecodeNumber(t, v, NUint(x));
      } else {
        o := DecodeNumber(t, v, NFloat);
      }
      r, err := o.v, o.err;
    }

    /** The string and binary cases of the switch: the header is the payload's length. */
    method DecodeText(t: Type, v: Val, k: Kind) returns (r: Val, err: Option<Error>)
      requires Valid() && pos < |data|
      requires k.KString? || k.KBinary?
      modifies this
      decreases |data| - pos, 0, 0
      ensures Valid()
      ensures Dec(r, pos, err) == Decoding.DecodeTagged(mode, h, t, v, data, old(pos), k)
    {
      pos := pos + 1;
      var x, e := Read(k.w);
      if e.Some? {
        r, err := v, e;
      } else if k.KString? {
        r, err := DecodeString(t, v, x);
      } else {
        r, err := DecodeBinary(t, v, x);
      }
    }

    /** The array and object cases of the switch: the header is the item or pair count. */
    method DecodeContainer(t: Type, v: Val, k: Kind) returns (r: Val, err: Option<Error>)
      requires Valid() && pos < |data|
      requires k.KArray? || k.KObject?
      modifies this
      decreases |data| - pos, 0, 0
      ensures Valid()
      ensures Dec(r, pos, err) == Decoding.DecodeTagged(mode, h, t, v, data, old(pos), k)
    {
      pos := pos + 1;
      var x, e := Read(k.w);
      if e.Some? {
        r, err := v, e;
      } else if k.KArray? {
        assert k == KArray(k.w);
        r, err := DecodeArray(t, v, x);
      } else {
        assert k == KObject(k.w);
        r, err := DecodeObject(t, v, x);
      }
    }

    /** `decodeArrayItems`: elements 0..n-1 decoded in place, stopping at the first error. */
    method DecodeArrayItems(e: Type, items: seq<Val>, n: nat) returns (items': seq<Val>, err: Option<Error>)
      requires Valid() && n <= |items|
      modifies this
      decreases |data| - pos, 1, 0
      ensures Valid()
      ensures DecItems(items', pos, err) == DecodeItems(mode, h, e, items, 0, n, data, old(pos))
    {
      items', err := items, None;
      var i := 0;
      while i < n
        invariant i <= n && |items'| == |items| && old(pos) <= pos <= |data| && err == None
        invariant DecodeItems(mode, h, e, items, 0, n, data, old(pos)) == DecodeItems(mode, h, e, items', i, n, data, pos)
      {
        var x, xe := DecodeRecord(e, items'[i]);
        items' := items'[i := x];
        if xe.Some? {
          err := xe;
          return;
        }
        i := i + 1;
      }
    }

    /**
     * `decodeArray`: a fixed array takes at most its length and has the
     * rest reset to zero values, a slice is resized to exactly n, an empty
     * interface receives a fresh `[]interface{}`.
     */
    method DecodeArray(t: Type, v: Val, n: nat) returns (r: Val, err: Option<Error>)
      requires Valid()
      modifies this
      decreases |data| - pos, 2, PtrDepth(t)
      ensures Valid()
      ensures Dec(r, pos, err) == Decoding.DecodeArray(mode, h, t, v, data, old(pos), n)
    {
      match t
      case Array(len, el) =>
        if n > len {
          r, err := v, Some(TypeMismatch(t));
          return;
        }
        var items;
        items, err := DecodeArrayItems(el, ArrayItems(v, len, el), n);
        if err.Some? {
          r := VArray(items);
          return;
        }
        ghost var decoded := items;
        if n < len {
          var z := Zero(el);
          var i := n;
          while i < len
            invariant n <= i <= len && |items| == len
            invariant forall k :: 0 <= k < len ==> items[k] == if n <= k < i then z else decoded[k]
          {
            items := items[i := z];
            i := i + 1;
          }
        }
        assert items == ZeroFill(decoded, n, el);
        r := VArray(items);
      case Slice(el) =>
        var cur := if v.VSlice? then v else VSlice(true, []);
        var items;
        items, err := DecodeArrayItems(el, Resize(cur.items, n, el), n);
        r := VSlice(cur.isNil && n == 0, items);
      case Interface(m) =>
        if m != 0 {
          r, err := v, Some(TypeMismatch(t));
          return;
        }
        var items;
        items, err := DecodeArrayItems(Any, seq(n, _ => VIface(None)), n);
        if err.Some? {
          r := v;
        } else {
          r := VIface(Some(Dyn(Slice(Any), VSlice(false, items))));
        }
      case Ptr(el) =>
        var x, e := DecodeArray(el, Pointee(t, v), n);
        r, err := VPtr(Some(x)), e;
      case _ =>
        r, err := v, Some(TypeMismatch(t));
    }

    /**
     * `decodeObjectItems`: pairs 0..n-1, each key and element decoded into
     * fresh zero values and then stored, stopping at the first error.
     */
    method DecodeObjectItems(kt: Type, et: Type, es: seq<Entry>, n: nat) returns (es': seq<Entry>, err: Option<Error>)
      requires Valid()
      modifies this
      decreases |data| - pos, 1, 1
      ensures Valid()
      ensures DecEntries(es', pos, err) == DecodeEntries(mode, h, kt, et, es, 0, n, data, old(pos))
    {
      es', err := es, None;
      var i := 0;
      while i < n
        invariant i <= n && old(pos) <= pos <= |data| && err == None
        invariant DecodeEntries(mode, h, kt, et, es, 0, n, data, old(pos)) == DecodeEntries(mode, h, kt, et, es', i, n, data, pos)
      {
        EntriesUnfold(mode, h, kt, et, es', i, n, data, pos);
        es', err := DecodeEntry(kt, et, es');
        if err.Some? {
          return;
        }
        i := i + 1;
      }
    }

    /** One key and element of a map, stored only when both decode. */
    method DecodeEntry(kt: Type, et: Type, es: seq<Entry>) returns (es': seq<Entry>, err: Option<Error>)
      requires Valid()
      modifies this
      decreases |data| - pos, 1, 0
      ensures Valid()
      ensures DecEntries(es', pos, err) == EntryPair(mode, h, kt, et, es, data, old(pos))
    {
      es' := es;
      var k, ke := DecodeRecord(kt, Zero(kt));
      if ke.Some? {
        err := ke;
        return;
      }
      var x, xe := DecodeRecord(et, Zero(et));
      if xe.Some? {
        err := xe;
      } else if !Hashable(k) {
        err := Some(Panic);
      } else {
        es', err := MapInsert(es, k, x), None;
      }
    }

    /**
     * The key loop of `decodeObject` on a struct: each of the n keys is
     * decoded into a fresh string and handed to the field loop; a key that
     * matches no settable field fails.
     */
    method DecodeFields(st: Type, fs: seq<Field>, xs: seq<Val>, n: nat) returns (xs': seq<Val>, err: Option<Error>)
      requires Valid() && |xs| == |fs|
      modifies this
      decreases |data| - pos, 1, 2
      ensures Valid()
      ensures DecItems(xs', pos, err) == Decoding.DecodeFields(mode, h, st, fs, xs, 0, n, data, old(pos))
    {
      xs', err := xs, None;
      var i := 0;
      while i < n
        invariant i <= n && |xs'| == |fs| && old(pos) <= pos <= |data| && err == None
        invariant Decoding.DecodeFields(mode, h, st, fs, xs, 0, n, data, old(pos)) == Decoding.DecodeFields(mode, h, st, fs, xs', i, n, data, pos)
      {
        FieldsUnfold(mode, h, st, fs, xs', i, n, data, pos);
        xs', err := DecodeField(st, fs, xs');
        if err.Some? {
          return;
        }
        i := i + 1;
      }
    }

    /** One key of a struct and the fields it names. */
    method DecodeField(st: Type, fs: seq<Field>, xs: seq<Val>) returns (xs': seq<Val>, err: Option<Error>)
      requires Valid() && |xs| == |fs|
      modifies this
      decreases |data| - pos, 1, 1
      ensures Valid()
      ensures DecItems(xs', pos, err) == FieldPair(mode, h, st, fs, xs, data, old(pos))
    {
      var key, ke := DecodeRecord(String, VString([]));
      if ke.Some? {
        xs', err := xs, ke;
        return;
      }
      var name := if key.VString? then key.s else [];
      var fe, decoded;
      xs', fe, decoded := FieldLoop(fs, xs, name);
      if fe.Some? {
        err := fe;
      } else if !decoded {
        err := Some(TypeMismatch(st));
      } else {
        err := None;
      }
    }

    /** The field loop of `decodeObject`: every settable field named `name` takes the next record. */
    method FieldLoop(fs: seq<Field>, xs: seq<Val>, name: seq<byte>) returns (xs': seq<Val>, err: Option<Error>, decoded: bool)
      requires Valid() && |xs| == |fs|
      modifies this
      decreases |data| - pos, 1, 0
      ensures Valid()
      ensures DecFields(xs', pos, err, decoded) == Decoding.FieldLoop(mode, h, fs, xs, name, 0, false, data, old(pos))
    {
      xs', err, decoded := xs, None, false;
      var j := 0;
      while j < |fs|
        invariant j <= |fs| && |xs'| == |fs| && old(pos) <= pos <= |data| && err == None
        invariant Decoding.FieldLoop(mode, h, fs, xs, name, 0, false, data, old(pos))
               == Decoding.FieldLoop(mode, h, fs, xs', name, j, decoded, data, pos)
      {
        if fs[j].name == name && fs[j].exported {
          var x, xe := DecodeRecord(fs[j].typ, xs'[j]);
          xs' := xs'[j := x];
          if xe.Some? {
            err := xe;
            return;
          }
          decoded := true;
        }
        j := j + 1;
      }
    }

    /**
     * `decodeObject`: a map is allocated or emptied key by key and then
     * filled; a struct is decoded into a fresh zero value that replaces the
     * destination only on success; an empty interface receives a fresh
     * `map[interface{}]interface{}`.
     */
    method DecodeObject(t: Type, v: Val, n: nat) returns (r: Val, err: Option<Error>)
      requires Valid()
      modifies this
      decreases |data| - pos, 2, PtrDepth(t)
      ensures Valid()
      ensures Dec(r, pos, err) == Decoding.DecodeObject(mode, h, t, v, data, old(pos), n)
    {
      match t
      case Map(kt, et) =>
        var es: seq<Entry> := [];
        if v.VMap? && !v.mapNil {
          es := ClearMap(v.entries);
        }
        var entries;
        entries, err := DecodeObjectItems(kt, et, es, n);
        r := VMap(false, entries);
      case Struct(fs, _, _) =>
        var xs, e := DecodeFields(t, fs, Zero(t).fields, n);
        if e.Some? {
          r, err := v, e;
        } else {
          r, err := VStruct(xs), None;
        }
      case Interface(m) =>
        if m != 0 {
          r, err := v, Some(TypeMismatch(t));
          return;
        }
        var entries;
        entries, err := DecodeObjectItems(Any, Any, [], n);
        if err.Some? {
          r := v;
        } else {
          r := VIface(Some(Dyn(Map(Any, Any), VMap(false, entries))));
        }
      case Ptr(el) =>
        var x, e := DecodeObject(el, Pointee(t, v), n);
        r, err := VPtr(Some(x)), e;
      case _ =>
        r, err := v, Some(TypeMismatch(t));
    }

    /** `DecodeValue(v)`: v must be a non-nil pointer; its pointee receives the record. */
    method DecodeValue(t: Type, v: Val) returns (r: Val, err: Option<Error>)
      requires Valid()
      modifies this
      ensures Valid()
      ensures Dec(r, pos, err) == Decoding.DecodeValue(mode, h, t, v, data, old(pos))
    {
      if !t.Ptr? {
        r, err := v, Some(NonPointer);
      } else if !(v.VPtr? && v.target.Some?) {
        r, err := v, Some(NilPointer);
      } else {
        var x, e := DecodeRecord(t.elem, v.target.value);
        r, err := VPtr(Some(x)), e;
      }
    }

    /** `Decode(v interface{})`. */
    method Decode(x: Option<Dyn>) returns (r: Option<Dyn>, err: Option<Error>)
      requires Valid()
      modifies this
      ensures Valid()
      ensures DecDyn(r, pos, err) == Decoding.Decode(mode, h, x, data, old(pos))
    {
      match x
      case None =>
        r, err := None, Some(Panic);
      case Some(d) =>
        var y, e := DecodeValue(d.typ, d.val);
        r, err := Some(Dyn(d.typ, y)), e;
    }
  }
}
