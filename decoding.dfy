/**
 * What the decoder does, as functions of the input bytes, the cursor, the
 * destination type and the destination's current value: the readers `read`
 * and `next`, the coercions `decodeNil`, `decodeBool`, `decodeNumber`,
 * `decodeString`, `decodeBinary`, `decodeArray`, `decodeObject`, and the
 * tag dispatch of `DecodeValue`. Every result carries the destination as
 * the decoder leaves it, the new cursor and the error, if any. The decoder
 * in module Decoders is proved to compute exactly these results.
 */
module Decoding {
  import opened Wrappers
  import opened Tags
  import opened BigEndian
  import opened Strconv
  import opened Reflect

  /**
   * How `next` reads a payload. SingleRead is the source as written: one
   * `Read` call on the `bytes.Reader`, which fails with EOF when the cursor
   * is at the end (even for an empty payload) and otherwise returns what is
   * available, zero-padded to the requested length. FullRead reads exactly n
   * bytes or fails, as `io.ReadFull` does.
   */
  datatype ReadMode = SingleRead | FullRead

  /** Bytes obtained from the reader, the cursor after the read, and the error. */
  datatype Chunk = Chunk(bytes: seq<byte>, pos: nat, err: Option<Error>)

  /** A destination value after a step that reads nothing, and the error. */
  datatype Out = Out(v: Val, err: Option<Error>)

  /** A destination value after a decoding step, the cursor, and the error. */
  datatype Dec = Dec(v: Val, pos: nat, err: Option<Error>)

  /** The elements of an array or slice being decoded in place. */
  datatype DecItems = DecItems(items: seq<Val>, pos: nat, err: Option<Error>)

  /** The entries of a map being filled. */
  datatype DecEntries = DecEntries(entries: seq<Entry>, pos: nat, err: Option<Error>)

  /** The fresh struct's fields during the field loop, and whether a field matched. */
  datatype DecFields = DecFields(xs: seq<Val>, pos: nat, err: Option<Error>, matched: bool)

  function Zeros(n: nat): (r: seq<byte>)
    ensures |r| == n
  {
    seq(n, _ => 0)
  }

  /**
   * `io.ReadFull` over a `bytes.Reader` (what `binary.Read` does for `read`):
   * n bytes, or EOF if none was left, or unexpected EOF if only some were.
   */
  function ReadFull(data: seq<byte>, pos: nat, n: nat): (c: Chunk)
    requires pos <= |data|
    ensures pos <= c.pos <= |data|
    ensures c.err.None? <==> pos + n <= |data|
    ensures c.err.None? ==> c.bytes == data[pos..pos + n] && c.pos == pos + n
    ensures c.err.Some? ==> c.err == Some(if pos == |data| then EOF else UnexpectedEOF)
  {
    if pos + n <= |data| then Chunk(data[pos..pos + n], pos + n, None)
    else if pos == |data| then Chunk([], pos, Some(EOF))
    else Chunk([], |data|, Some(UnexpectedEOF))
  }

  /**
   * One `bytes.Reader.Read` into a fresh buffer of n bytes: EOF at the end of
   * the input whatever n is; otherwise the available bytes, at most n, with
   * the rest of the buffer left zero.
   */
  function ReadOnce(data: seq<byte>, pos: nat, n: nat): (c: Chunk)
    requires pos <= |data|
    ensures pos <= c.pos <= |data|
    ensures c.err.None? <==> pos < |data|
    ensures c.err.None? ==> |c.bytes| == n
  {
    if pos == |data| then Chunk([], pos, Some(EOF))
    else
      var m := if pos + n <= |data| then n else |data| - pos;
      Chunk(data[pos..pos + m] + Zeros(n - m), pos + m, None)
  }

  /** `next(n)` in the chosen mode. */
  function Next(mode: ReadMode, data: seq<byte>, pos: nat, n: nat): (c: Chunk)
    requires pos <= |data|
    ensures pos <= c.pos <= |data|
    ensures c.err.None? ==> |c.bytes| == n
  {
    match mode
    case SingleRead => ReadOnce(data, pos, n)
    case FullRead => ReadFull(data, pos, n)
  }

  /** The integer wire values, widened to int64 or uint64; floats are opaque. */
  datatype Num = NInt(i: int) | NUint(u: nat) | NFloat

  /** `int64(x)` for a uint64 x: the same 64 bits read as two's complement. */
  function ToInt64(u: nat): int
  {
    Signed(u % Pow256(8), 8)
  }

  /** `uint64(x)` for an int64 x: the two's complement bits read as unsigned. */
  function ToUint64(i: int): nat
  {
    Unsigned(i, 8)
  }

  /** The pointee `indirect` works on: the current one, or a fresh zero value. */
  function Pointee(t: Type, v: Val): Val
  {
    if v.VPtr? && v.target.Some? then v.target.value else Zero(ElemOf(t))
  }

  function Mismatch(t: Type, v: Val): Out
  {
    Out(v, Some(TypeMismatch(t)))
  }

  /** `decodeNil`: interfaces, pointers, maps and slices become nil; the rest is untouched. */
  function DecodeNil(t: Type, v: Val): Val
  {
    match t
    case Interface(_) => VIface(None)
    case Ptr(_) => VPtr(None)
    case Map(_, _) => VMap(true, [])
    case Slice(_) => VSlice(true, [])
    case _ => v
  }

  /** `decodeBool`. */
  function DecodeBool(t: Type, v: Val, x: bool): Out
  {
    match t
    case Bool => Out(VBool(x), None)
    case Interface(m) =>
      if m != 0 then Mismatch(t, v) else Out(VIface(Some(Dyn(Bool, VBool(x)))), None)
    case Ptr(e) =>
      var r := DecodeBool(e, Pointee(t, v), x);
      Out(VPtr(Some(r.v)), r.err)
    case _ => Mismatch(t, v)
  }

  /** The dynamic value an empty interface receives for a number. */
  function NumDyn(x: Num): Dyn
    requires !x.NFloat?
  {
    match x
    case NInt(i) => Dyn(Int(64), VInt(i))
    case NUint(u) => Dyn(Uint(64), VUint(u))
  }

  /**
   * `decodeNumber` on its integer paths: a signed destination takes the
   * value as int64 (a uint64 reinterpreted), an unsigned one as uint64 (an
   * int64 reinterpreted), and either fails, unchanged, if the value does not
   * fit its width.
   */
  function DecodeNumber(t: Type, v: Val, x: Num): Out
  {
    match t
    case Int(bits) =>
      if x.NFloat? then Out(v, Some(FloatUnmodelled))
      else
        var n := if x.NInt? then x.i else ToInt64(x.u);
        if FitsInt(n, bits) then Out(VInt(n), None) else Mismatch(t, v)
    case Uint(bits) =>
      if x.NFloat? then Out(v, Some(FloatUnmodelled))
      else
        var n := if x.NUint? then x.u else ToUint64(x.i);
        if FitsUint(n, bits) then Out(VUint(n), None) else Mismatch(t, v)
    case Interface(m) =>
      if m != 0 then Mismatch(t, v)
      else if x.NFloat? then Out(v, Some(FloatUnmodelled))
      else Out(VIface(Some(NumDyn(x))), None)
    case Ptr(e) =>
      var r := DecodeNumber(e, Pointee(t, v), x);
      Out(VPtr(Some(r.v)), r.err)
    case _ => Mismatch(t, v)
  }

  function Fin(o: Out, pos: nat): Dec
  {
    Dec(o.v, pos, o.err)
  }

  /**
   * `decodeString`: the n payload bytes into a string or `[]byte`, parsed
   * into a bool or integer, or as a string into an empty interface. A
   * `[]T` with T other than uint8, a non-empty interface and every other
   * kind fail before the payload is read.
   */
  function DecodeString(mode: ReadMode, t: Type, v: Val, data: seq<byte>, pos: nat, n: nat): (r: Dec)
    requires pos <= |data|
    ensures pos <= r.pos <= |data|
  {
    match t
    case String =>
      var c := Next(mode, data, pos, n);
      if c.err.Some? then Dec(v, c.pos, c.err) else Dec(VString(c.bytes), c.pos, None)
    case Slice(e) =>
      if e != Uint(8) then Fin(Mismatch(t, v), pos)
      else
        var c := Next(mode, data, pos, n);
        if c.err.Some? then Dec(v, c.pos, c.err) else Dec(BytesVal(c.bytes), c.pos, None)
    case Bool =>
      var c := Next(mode, data, pos, n);
      if c.err.Some? then Dec(v, c.pos, c.err)
      else (match ParseBool(c.bytes)
        case None => Fin(Mismatch(t, v), c.pos)
        case Some(b) => Dec(VBool(b), c.pos, None))
    case Int(bits) =>
      var c := Next(mode, data, pos, n);
      if c.err.Some? then Dec(v, c.pos, c.err)
      else (match ParseInt(c.bytes)
        case None => Fin(Mismatch(t, v), c.pos)
        case Some(i) => if FitsInt(i, bits) then Dec(VInt(i), c.pos, None) else Fin(Mismatch(t, v), c.pos))
    case Uint(bits) =>
      var c := Next(mode, data, pos, n);
      if c.err.Some? then Dec(v, c.pos, c.err)
      else (match ParseUint(c.bytes)
        case None => Fin(Mismatch(t, v), c.pos)
        case Some(u) => if FitsUint(u, bits) then Dec(VUint(u), c.pos, None) else Fin(Mismatch(t, v), c.pos))
    case Interface(m) =>
      if m != 0 then Fin(Mismatch(t, v), pos)
      else
        var c := Next(mode, data, pos, n);
        if c.err.Some? then Dec(v, c.pos, c.err)
        else Dec(VIface(Some(Dyn(String, VString(c.bytes)))), c.pos, None)
    case Ptr(e) =>
      var r := DecodeString(mode, e, Pointee(t, v), data, pos, n);
      Dec(VPtr(Some(r.v)), r.pos, r.err)
    case _ => Fin(Mismatch(t, v), pos)
  }

  /**
   * `decodeBinary`: the payload into a `[]byte` or an empty interface, or
   * handed to the `UnmarshalBinary` hook of a struct, whose error comes back
   * as it is. A struct without the hook and every other kind fail before the
   * payload is read.
   */
  function DecodeBinary(mode: ReadMode, h: Hooks, t: Type, v: Val, data: seq<byte>, pos: nat, n: nat): (r: Dec)
    requires pos <= |data|
    ensures pos <= r.pos <= |data|
  {
    match t
    case Slice(e) =>
      if e != Uint(8) then Fin(Mismatch(t, v), pos)
      else
        var c := Next(mode, data, pos, n);
        if c.err.Some? then Dec(v, c.pos, c.err) else Dec(BytesVal(c.bytes), c.pos, None)
    case Interface(m) =>
      if m != 0 then Fin(Mismatch(t, v), pos)
      else
        var c := Next(mode, data, pos, n);
        if c.err.Some? then Dec(v, c.pos, c.err)
        else Dec(VIface(Some(Dyn(ByteSlice, BytesVal(c.bytes)))), c.pos, None)
    case Struct(_, _, unmarshaler) =>
      if !unmarshaler then Fin(Mismatch(t, v), pos)
      else
        var c := Next(mode, data, pos, n);
        if c.err.Some? then Dec(v, c.pos, c.err)
        else
          var u := h.unmarshal(t, v, c.bytes);
          Dec(u.v, c.pos, if u.err.Some? then Some(HookFailed(u.err.value)) else None)
    case Ptr(e) =>
      var r := DecodeBinary(mode, h, e, Pointee(t, v), data, pos, n);
      Dec(VPtr(Some(r.v)), r.pos, r.err)
    case _ => Fin(Mismatch(t, v), pos)
  }

  /** A width-w big-endian header read with `read`: the count or value, or the read error. */
  datatype Header = Header(value: nat, pos: nat, err: Option<Error>)

  function ReadHeader(data: seq<byte>, pos: nat, w: Width): (r: Header)
    requires pos <= |data|
    ensures pos <= r.pos <= |data|
    ensures r.err.None? ==> r.pos == pos + Bytes(w)
  {
    var c := ReadFull(data, pos, Bytes(w));
    if c.err.Some? then Header(0, c.pos, c.err) else Header(FromBE(c.bytes), c.pos, None)
  }

  /** The current elements of an array destination of length len. */
  function ArrayItems(v: Val, len: nat, e: Type): (r: seq<Val>)
    ensures |r| == len
  {
    if v.VArray? && |v.items| == len then v.items else seq(len, _ => Zero(e))
  }

  /** The zero-fill loop: elements from n on reset to the element's zero value. */
  function ZeroFill(items: seq<Val>, n: nat, e: Type): (r: seq<Val>)
    requires n <= |items|
    ensures |r| == |items| && r[..n] == items[..n]
    ensures forall i :: n <= i < |r| ==> r[i] == Zero(e)
  {
    items[..n] + seq(|items| - n, _ => Zero(e))
  }

  /**
   * A slice's elements after `SetLen(n)`, growing through `MakeSlice` and
   * `Copy` when needed: the first n old elements, then zero values.
   */
  function Resize(items: seq<Val>, n: nat, e: Type): (r: seq<Val>)
    ensures |r| == n
    ensures forall i :: 0 <= i < n ==> r[i] == if i < |items| then items[i] else Zero(e)
  {
    if n <= |items| then items[..n] else items + seq(n - |items|, _ => Zero(e))
  }

  /** The key of an entry equal to k, if any. */
  function Lookup(es: seq<Entry>, k: Val): Option<Val>
  {
    if es == [] then None
    else if es[0].key == k then Some(es[0].elem)
    else Lookup(es[1..], k)
  }

  /** `SetMapIndex(k, x)`: the entry for k replaced in place, or a new entry appended. */
  function MapInsert(es: seq<Entry>, k: Val, x: Val): (r: seq<Entry>)
  {
    if es == [] then [Entry(k, x)]
    else if es[0].key == k then [Entry(k, x)] + es[1..]
    else [es[0]] + MapInsert(es[1..], k, x)
  }

  /**
   * `DecodeValue` after its pointer checks: reads the tag at pos. At the end
   * of input this is EOF; an unknown tag is consumed and changes nothing.
   */
  function DecodeRecord(mode: ReadMode, h: Hooks, t: Type, v: Val, data: seq<byte>, pos: nat): (r: Dec)
    requires pos <= |data|
    decreases |data| - pos, 0, 1
    ensures pos <= r.pos <= |data|
    ensures r.err.None? ==> r.pos > pos
  {
    if pos == |data| then Dec(v, pos, Some(EOF))
    else
      match Classify(data[pos])
      case None => Dec(v, pos + 1, None)
      case Some(k) => DecodeTagged(mode, h, t, v, data, pos, k)
  }

  /** The dispatch of `DecodeValue` on the known tag k at pos: its header, then its payload or items. */
  function DecodeTagged(mode: ReadMode, h: Hooks, t: Type, v: Val, data: seq<byte>, pos: nat, k: Kind): (r: Dec)
    requires pos < |data|
    decreases |data| - pos, 0, 0
    ensures pos < r.pos <= |data|
  {
    var p := pos + 1;
    match k
    case KNil => Dec(DecodeNil(t, v), p, None)
    case KTrue => Fin(DecodeBool(t, v, true), p)
    case KFalse => Fin(DecodeBool(t, v, false), p)
    case KInt(w) =>
      var x := ReadHeader(data, p, w);
      if x.err.Some? then Dec(v, x.pos, x.err)
      else Fin(DecodeNumber(t, v, NInt(Signed(x.value, Bytes(w)))), x.pos)
    case KUint(w) =>
      var x := ReadHeader(data, p, w);
      if x.err.Some? then Dec(v, x.pos, x.err)
      else Fin(DecodeNumber(t, v, NUint(x.value)), x.pos)
    case KFloat(w) =>
      var x := ReadHeader(data, p, w);
      if x.err.Some? then Dec(v, x.pos, x.err)
      else Fin(DecodeNumber(t, v, NFloat), x.pos)
    case KString(w) =>
      var x := ReadHeader(data, p, w);
      if x.err.Some? then Dec(v, x.pos, x.err)
      else DecodeString(mode, t, v, data, x.pos, x.value)
    case KBinary(w) =>
      var x := ReadHeader(data, p, w);
      if x.err.Some? then Dec(v, x.pos, x.err)
      else DecodeBinary(mode, h, t, v, data, x.pos, x.value)
    case KArray(w) =>
      var x := ReadHeader(data, p, w);
      if x.err.Some? then Dec(v, x.pos, x.err)
      else DecodeArray(mode, h, t, v, data, x.pos, x.value)
    case KObject(w) =>
      var x := ReadHeader(data, p, w);
      if x.err.Some? then Dec(v, x.pos, x.err)
      else DecodeObject(mode, h, t, v, data, x.pos, x.value)
  }

  /**
   * `decodeArray` for a count of n: a fixed array takes at most its length
   * and zero-fills the rest, a slice is resized to exactly n, an empty
   * interface receives a fresh `[]interface{}`.
   */
  function DecodeArray(mode: ReadMode, h: Hooks, t: Type, v: Val, data: seq<byte>, pos: nat, n: nat): (r: Dec)
    requires pos <= |data|
    decreases |data| - pos, 2, PtrDepth(t)
    ensures pos <= r.pos <= |data|
  {
    match t
    case Array(len, e) =>
      if n > len then Fin(Mismatch(t, v), pos)
      else
        var r := DecodeItems(mode, h, e, ArrayItems(v, len, e), 0, n, data, pos);
        if r.err.Some? then Dec(VArray(r.items), r.pos, r.err)
        else Dec(VArray(ZeroFill(r.items, n, e)), r.pos, None)
    case Slice(e) =>
      var cur := if v.VSlice? then v else VSlice(true, []);
      var r := DecodeItems(mode, h, e, Resize(cur.items, n, e), 0, n, data, pos);
      Dec(VSlice(cur.isNil && n == 0, r.items), r.pos, r.err)
    case Interface(m) =>
      if m != 0 then Fin(Mismatch(t, v), pos)
      else
        var r := DecodeItems(mode, h, Any, seq(n, _ => VIface(None)), 0, n, data, pos);
        if r.err.Some? then Dec(v, r.pos, r.err)
        else Dec(VIface(Some(Dyn(Slice(Any), VSlice(false, r.items)))), r.pos, None)
    case Ptr(e) =>
      var r := DecodeArray(mode, h, e, Pointee(t, v), data, pos, n);
      Dec(VPtr(Some(r.v)), r.pos, r.err)
    case _ => Fin(Mismatch(t, v), pos)
  }

  /** `decodeArrayItems`: elements i..n-1 decoded in place, stopping at the first error. */
  function DecodeItems(mode: ReadMode, h: Hooks, e: Type, items: seq<Val>, i: nat, n: nat, data: seq<byte>, pos: nat): (r: DecItems)
    requires i <= n <= |items| && pos <= |data|
    decreases |data| - pos, 1, n - i
    ensures pos <= r.pos <= |data| && |r.items| == |items|
  {
    if i == n then DecItems(items, pos, None)
    else
      var x := DecodeRecord(mode, h, e, items[i], data, pos);
      var items' := items[i := x.v];
      if x.err.Some? then DecItems(items', x.pos, x.err)
      else DecodeItems(mode, h, e, items', i + 1, n, data, x.pos)
  }

  /**
   * `decodeObject` for a count of n: a map is emptied (or allocated) and
   * filled; a struct is decoded into a fresh zero value that replaces the
   * destination only on success; an empty interface receives a fresh
   * `map[interface{}]interface{}`.
   */
  function DecodeObject(mode: ReadMode, h: Hooks, t: Type, v: Val, data: seq<byte>, pos: nat, n: nat): (r: Dec)
    requires pos <= |data|
    decreases |data| - pos, 2, PtrDepth(t)
    ensures pos <= r.pos <= |data|
  {
    match t
    case Map(k, e) =>
      var r := DecodeEntries(mode, h, k, e, [], 0, n, data, pos);
      Dec(VMap(false, r.entries), r.pos, r.err)
    case Struct(fs, _, _) =>
      var r := DecodeFields(mode, h, t, fs, Zero(t).fields, 0, n, data, pos);
      if r.err.Some? then Dec(v, r.pos, r.err) else Dec(VStruct(r.items), r.pos, None)
    case Interface(m) =>
      if m != 0 then Fin(Mismatch(t, v), pos)
      else
        var r := DecodeEntries(mode, h, Any, Any, [], 0, n, data, pos);
        if r.err.Some? then Dec(v, r.pos, r.err)
        else Dec(VIface(Some(Dyn(Map(Any, Any), VMap(false, r.entries)))), r.pos, None)
    case Ptr(e) =>
      var r := DecodeObject(mode, h, e, Pointee(t, v), data, pos, n);
      Dec(VPtr(Some(r.v)), r.pos, r.err)
    case _ => Fin(Mismatch(t, v), pos)
  }

  /**
   * `decodeObjectItems`: pairs i..n-1, each key and element decoded into
   * fresh zero values and then stored, stopping at the first error. Storing
   * an unhashable key panics.
   */
  function DecodeEntries(mode: ReadMode, h: Hooks, kt: Type, et: Type, es: seq<Entry>, i: nat, n: nat, data: seq<byte>, pos: nat): (r: DecEntries)
    requires i <= n && pos <= |data|
    decreases |data| - pos, 1, n - i
    ensures pos <= r.pos <= |data|
  {
    if i == n then DecEntries(es, pos, None)
    else
      var k := DecodeRecord(mode, h, kt, Zero(kt), data, pos);
      if k.err.Some? then DecEntries(es, k.pos, k.err)
      else
        var x := DecodeRecord(mode, h, et, Zero(et), data, k.pos);
        if x.err.Some? then DecEntries(es, x.pos, x.err)
        else if !Hashable(k.v) then DecEntries(es, x.pos, Some(Panic))
        else DecodeEntries(mode, h, kt, et, MapInsert(es, k.v, x.v), i + 1, n, data, x.pos)
  }

  /**
   * One pair of `decodeObjectItems`: key and element into fresh zero
   * values, then the store, which panics on an unhashable key.
   */
  function EntryPair(mode: ReadMode, h: Hooks, kt: Type, et: Type, es: seq<Entry>, data: seq<byte>, pos: nat): (r: DecEntries)
    requires pos <= |data|
    ensures pos <= r.pos <= |data|
  {
    var k := DecodeRecord(mode, h, kt, Zero(kt), data, pos);
    if k.err.Some? then DecEntries(es, k.pos, k.err)
    else
      var x := DecodeRecord(mode, h, et, Zero(et), data, k.pos);
      if x.err.Some? then DecEntries(es, x.pos, x.err)
      else if !Hashable(k.v) then DecEntries(es, x.pos, Some(Panic))
      else DecEntries(MapInsert(es, k.v, x.v), x.pos, None)
  }

  /** `decodeObjectItems` is `EntryPair` repeated until the first error. */
  lemma EntriesUnfold(mode: ReadMode, h: Hooks, kt: Type, et: Type, es: seq<Entry>, i: nat, n: nat, data: seq<byte>, pos: nat)
    requires i < n && pos <= |data|
    ensures DecodeEntries(mode, h, kt, et, es, i, n, data, pos)
         == var p := EntryPair(mode, h, kt, et, es, data, pos);
            if p.err.Some? then p else DecodeEntries(mode, h, kt, et, p.entries, i + 1, n, data, p.pos)
  {
  }

  /**
   * The key loop of `decodeObject` on a struct: pairs i..n-1, each key
   * decoded into a fresh string; a key matching no settable field fails.
   */
  function DecodeFields(mode: ReadMode, h: Hooks, st: Type, fs: seq<Field>, xs: seq<Val>, i: nat, n: nat, data: seq<byte>, pos: nat): (r: DecItems)
    requires i <= n && |xs| == |fs| && pos <= |data|
    decreases |data| - pos, 1, n - i
    ensures pos <= r.pos <= |data| && |r.items| == |fs|
  {
    if i == n then DecItems(xs, pos, None)
    else
      var k := DecodeRecord(mode, h, String, VString([]), data, pos);
      if k.err.Some? then DecItems(xs, k.pos, k.err)
      else
        var name := if k.v.VString? then k.v.s else [];
        var f := FieldLoop(mode, h, fs, xs, name, 0, false, data, k.pos);
        if f.err.Some? then DecItems(f.xs, f.pos, f.err)
        else if !f.matched then DecItems(f.xs, f.pos, Some(TypeMismatch(st)))
        else DecodeFields(mode, h, st, fs, f.xs, i + 1, n, data, f.pos)
  }

  /**
   * One pair of the key loop: the key into a fresh string, then the field
   * loop; a key that matches no settable field is a type mismatch.
   */
  function FieldPair(mode: ReadMode, h: Hooks, st: Type, fs: seq<Field>, xs: seq<Val>, data: seq<byte>, pos: nat): (r: DecItems)
    requires |xs| == |fs| && pos <= |data|
    ensures pos <= r.pos <= |data| && |r.items| == |fs|
  {
    var k := DecodeRecord(mode, h, String, VString([]), data, pos);
    if k.err.Some? then DecItems(xs, k.pos, k.err)
    else
      var name := if k.v.VString? then k.v.s else [];
      var f := FieldLoop(mode, h, fs, xs, name, 0, false, data, k.pos);
      if f.err.Some? then DecItems(f.xs, f.pos, f.err)
      else if !f.matched then DecItems(f.xs, f.pos, Some(TypeMismatch(st)))
      else DecItems(f.xs, f.pos, None)
  }

  /** The key loop is `FieldPair` repeated until the first error. */
  lemma FieldsUnfold(mode: ReadMode, h: Hooks, st: Type, fs: seq<Field>, xs: seq<Val>, i: nat, n: nat, data: seq<byte>, pos: nat)
    requires i < n && |xs| == |fs| && pos <= |data|
    ensures DecodeFields(mode, h, st, fs, xs, i, n, data, pos)
         == var p := FieldPair(mode, h, st, fs, xs, data, pos);
            if p.err.Some? then p else DecodeFields(mode, h, st, fs, p.items, i + 1, n, data, p.pos)
  {
  }

  /**
   * The field loop of `decodeObject`: every exported field j.. whose name
   * equals the key takes the next record.
   */
  function FieldLoop(mode: ReadMode, h: Hooks, fs: seq<Field>, xs: seq<Val>, name: seq<byte>, j: nat, matched: bool, data: seq<byte>, pos: nat): (r: DecFields)
    requires j <= |fs| && |xs| == |fs| && pos <= |data|
    decreases |data| - pos, 1, |fs| - j
    ensures pos <= r.pos <= |data| && |r.xs| == |fs|
  {
    if j == |fs| then DecFields(xs, pos, None, matched)
    else if fs[j].name == name && fs[j].exported then
      var x := DecodeRecord(mode, h, fs[j].typ, xs[j], data, pos);
      if x.err.Some? then DecFields(xs[j := x.v], x.pos, x.err, matched)
      else FieldLoop(mode, h, fs, xs[j := x.v], name, j + 1, true, data, x.pos)
    else FieldLoop(mode, h, fs, xs, name, j + 1, matched, data, pos)
  }

  /**
   * `DecodeValue(v)`: v must be a non-nil pointer, or nothing is read; the
   * record is decoded into its pointee.
   */
  function DecodeValue(mode: ReadMode, h: Hooks, t: Type, v: Val, data: seq<byte>, pos: nat): (r: Dec)
    requires pos <= |data|
    ensures pos <= r.pos <= |data|
    ensures !t.Ptr? ==> r == Dec(v, pos, Some(NonPointer))
    ensures t.Ptr? && v == VPtr(None) ==> r == Dec(v, pos, Some(NilPointer))
  {
    if !t.Ptr? then Dec(v, pos, Some(NonPointer))
    else if !(v.VPtr? && v.target.Some?) then Dec(v, pos, Some(NilPointer))
    else
      var x := DecodeRecord(mode, h, t.elem, v.target.value, data, pos);
      Dec(VPtr(Some(x.v)), x.pos, x.err)
  }

  /** What `Decode(v interface{})` leaves in its argument, the cursor and the error. */
  datatype DecDyn = DecDyn(x: Option<Dyn>, pos: nat, err: Option<Error>)

  /**
   * `Decode(v interface{})`: a nil argument has no type, and asking for it
   * to name the error panics inside `reflect`.
   */
  function Decode(mode: ReadMode, h: Hooks, x: Option<Dyn>, data: seq<byte>, pos: nat): (r: DecDyn)
    requires pos <= |data|
    ensures pos <= r.pos <= |data|
  {
    match x
    case None => DecDyn(None, pos, Some(Panic))
    case Some(d) =>
      var r := DecodeValue(mode, h, d.typ, d.val, data, pos);
      DecDyn(Some(Dyn(d.typ, r.v)), r.pos, r.err)
  }
}
