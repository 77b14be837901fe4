/**
 * The Encoder: a writer `w` that only grows (the `bytes.Buffer` behind
 * `Marshal`) and the methods that append records to it. Each method is
 * proved to append exactly the bytes of the matching function of module
 * Encoding and to return that function's error.
 */
module Encoders {
  import opened Wrappers
  import opened Tags
  import opened BigEndian
  import opened Reflect
  import opened Encoding

  /** The values handed to one `write` call, each laid out by `binary.Write`, back to back. */
  function Concat(parts: seq<seq<byte>>): seq<byte>
  {
    if parts == [] then [] else parts[0] + Concat(parts[1..])
  }

  lemma ConcatStep(parts: seq<seq<byte>>, i: nat)
    requires i < |parts|
    ensures Concat(parts[i..]) == parts[i] + Concat(parts[i + 1..])
  {
    assert parts[i..][1..] == parts[i + 1..];
  }

  lemma AppendEmpty(s: seq<byte>)
    ensures s + [] == s
  {
  }

  lemma ConcatPair(a: seq<byte>, b: seq<byte>)
    ensures Concat([a, b]) == a + b
  {
    assert [b][1..] == [];
    assert Concat([b]) == b + [] == b;
    assert [a, b][1..] == [b];
  }

  /** One step of the `encodeArray` loop: the element fails, ending the loop, or the rest follows. */
  lemma ItemsStep(h: Hooks, e: Type, items: seq<Val>, i: nat, ro: bool, done: seq<byte>)
    requires i < |items|
    ensures var x := Encoding.EncodeValue(h, e, items[i], ro);
      Then(done, EncodeItems(h, e, items, i, ro)) ==
        if x.err.Some? then EncOut(done + x.bytes, x.err)
        else Then(done + x.bytes, EncodeItems(h, e, items, i + 1, ro))
  {
    var x := Encoding.EncodeValue(h, e, items[i], ro);
    var rest := EncodeItems(h, e, items, i + 1, ro);
    assert done + (x.bytes + rest.bytes) == (done + x.bytes) + rest.bytes;
  }

  /** One step of the `encodeMap` loop: the key fails, the element fails, or the rest follows. */
  lemma EntriesStep(h: Hooks, kt: Type, et: Type, es: seq<Entry>, i: nat, ro: bool, done: seq<byte>)
    requires i < |es|
    ensures var a := Encoding.EncodeValue(h, kt, es[i].key, ro);
      var b := Encoding.EncodeValue(h, et, es[i].elem, ro);
      Then(done, EncodeEntries(h, kt, et, es, i, ro)) ==
        if a.err.Some? then EncOut(done + a.bytes, a.err)
        else if b.err.Some? then EncOut(done + a.bytes + b.bytes, b.err)
        else Then(done + a.bytes + b.bytes, EncodeEntries(h, kt, et, es, i + 1, ro))
  {
    var a := Encoding.EncodeValue(h, kt, es[i].key, ro);
    var b := Encoding.EncodeValue(h, et, es[i].elem, ro);
    var rest := EncodeEntries(h, kt, et, es, i + 1, ro);
    assert done + (a.bytes + b.bytes) == done + a.bytes + b.bytes;
    assert done + ((a.bytes + b.bytes) + rest.bytes) == (done + a.bytes + b.bytes) + rest.bytes;
  }

  /** One step of the pair loop of `encodeObject`: the field name, then the value, which may fail. */
  lemma PairsStep(h: Hooks, t: Type, fs: seq<Val>, keep: seq<nat>, j: nat, done: seq<byte>)
    requires j < |keep|
    requires forall k :: 0 <= k < |keep| ==> keep[k] < |fs|
    ensures var f := FieldAt(t, keep[j]);
      var x := Encoding.EncodeValue(h, f.typ, fs[keep[j]], !f.exported);
      Then(done, EncodePairs(h, t, fs, keep, j)) ==
        if x.err.Some? then EncOut(done + TextRecord(f.name) + x.bytes, x.err)
        else Then(done + TextRecord(f.name) + x.bytes, EncodePairs(h, t, fs, keep, j + 1))
  {
    var f := FieldAt(t, keep[j]);
    var x := Encoding.EncodeValue(h, f.typ, fs[keep[j]], !f.exported);
    var rest := EncodePairs(h, t, fs, keep, j + 1);
    assert done + (TextRecord(f.name) + x.bytes) == done + TextRecord(f.name) + x.bytes;
    assert done + ((TextRecord(f.name) + x.bytes) + rest.bytes) == (done + TextRecord(f.name) + x.bytes) + rest.bytes;
  }

  /**
   * The first loop of `encodeObject`: the indices of the fields that
   * `skipValue` does not leave out, in declaration order.
   */
  method KeepFields(fs: seq<Val>) returns (keep: seq<nat>)
    ensures keep == Kept(fs, 0)
  {
    keep := [];
    var i := 0;
    while i < |fs|
      invariant 0 <= i <= |fs|
      invariant keep + Kept(fs, i) == Kept(fs, 0)
    {
      if !SkipValue(fs[i]) {
        assert keep + Kept(fs, i) == (keep + [i]) + Kept(fs, i + 1);
        keep := keep + [i];
      }
      i := i + 1;
    }
  }

  class Encoder {
    /** Everything written so far. */
    var w: seq<byte>

    constructor ()
      ensures w == []
    {
      w := [];
    }

    /** `write(t, v...)`: the tag byte, then the big-endian bytes of each value in turn. */
    method Write(t: byte, parts: seq<seq<byte>>)
      modifies this
      ensures w == old(w) + [t] + Concat(parts)
    {
      w := w + [t];
      var i := 0;
      assert parts[i..] == parts;
      while i < |parts|
        invariant 0 <= i <= |parts|
        invariant w + Concat(parts[i..]) == old(w) + [t] + Concat(parts)
      {
        ConcatStep(parts, i);
        w := w + parts[i];
        i := i + 1;
      }
      assert parts[i..] == [];
    }

    method EncodeNil() returns (err: Option<Error>)
      modifies this
      ensures w == old(w) + NilRecord() && err == None
    {
      Write(Tag(KNil), []);
      err := None;
    }

    method EncodeBool(b: bool) returns (err: Option<Error>)
      modifies this
      ensures w == old(w) + BoolRecord(b) && err == None
    {
      if b {
        Write(Tag(KTrue), []);
      } else {
        Write(Tag(KFalse), []);
      }
      err := None;
    }

    /** `encodeInt`: the first tier whose range holds the value, then `intN(v)`. */
    method EncodeInt(i: int) returns (err: Option<Error>)
      modifies this
      ensures w == old(w) + IntRecord(i) && err == None
    {
      if -128 <= i <= 127 {
        Write(Tag(KInt(W8)), [IntPayload(i, W8)]);
      } else if -32768 <= i <= 32767 {
        Write(Tag(KInt(W16)), [IntPayload(i, W16)]);
      } else if -2147483648 <= i <= 2147483647 {
        Write(Tag(KInt(W32)), [IntPayload(i, W32)]);
      } else {
        Write(Tag(KInt(W64)), [IntPayload(i, W64)]);
      }
      err := None;
    }

    /** `encodeUint`: the first tier whose range holds the value, then `uintN(v)`. */
    method EncodeUint(u: nat) returns (err: Option<Error>)
      modifies this
      ensures w == old(w) + UintRecord(u) && err == None
    {
      if u <= 255 {
        Write(Tag(KUint(W8)), [UintPayload(u, W8)]);
      } else if u <= 65535 {
        Write(Tag(KUint(W16)), [UintPayload(u, W16)]);
      } else if u <= 4294967295 {
        Write(Tag(KUint(W32)), [UintPayload(u, W32)]);
      } else {
        Write(Tag(KUint(W64)), [UintPayload(u, W64)]);
      }
      err := None;
    }

    /** `encodeString`: the tag of the length's tier, the length, the raw bytes. */
    method EncodeString(s: seq<byte>) returns (err: Option<Error>)
      modifies this
      ensures w == old(w) + TextRecord(s) && err == None
    {
      var n := |s|;
      if n <= 255 {
        ConcatPair(UintPayload(n, W8), s);
        Write(Tag(KString(W8)), [UintPayload(n, W8), s]);
      } else if n <= 65535 {
        ConcatPair(UintPayload(n, W16), s);
        Write(Tag(KString(W16)), [UintPayload(n, W16), s]);
      } else {
        ConcatPair(UintPayload(n, W32), s);
        Write(Tag(KString(W32)), [UintPayload(n, W32), s]);
      }
      err := None;
    }

    /** `encodeBinary`: the same layout under the Binary tags. */
    method EncodeBinary(s: seq<byte>) returns (err: Option<Error>)
      modifies this
      ensures w == old(w) + BinaryRecord(s) && err == None
    {
      var n := |s|;
      if n <= 255 {
        ConcatPair(UintPayload(n, W8), s);
        Write(Tag(KBinary(W8)), [UintPayload(n, W8), s]);
      } else if n <= 65535 {
        ConcatPair(UintPayload(n, W16), s);
        Write(Tag(KBinary(W16)), [UintPayload(n, W16), s]);
      } else {
        ConcatPair(UintPayload(n, W32), s);
        Write(Tag(KBinary(W32)), [UintPayload(n, W32), s]);
      }
      err := None;
    }

    method WriteArrayType(n: nat) returns (err: Option<Error>)
      modifies this
      ensures w == old(w) + ArrayHeader(n) && err == None
    {
      if n <= 255 {
        Write(Tag(KArray(W8)), [UintPayload(n, W8)]);
      } else if n <= 65535 {
        Write(Tag(KArray(W16)), [UintPayload(n, W16)]);
      } else {
        Write(Tag(KArray(W32)), [UintPayload(n, W32)]);
      }
      err := None;
    }

    method WriteObjectType(n: nat) returns (err: Option<Error>)
      modifies this
      ensures w == old(w) + ObjectHeader(n) && err == None
    {
      if n <= 255 {
        Write(Tag(KObject(W8)), [UintPayload(n, W8)]);
      } else if n <= 65535 {
        Write(Tag(KObject(W16)), [UintPayload(n, W16)]);
      } else {
        Write(Tag(KObject(W32)), [UintPayload(n, W32)]);
      }
      err := None;
    }

    /** `EncodeValue`: the record of v, appended to what was written before. */
    method EncodeValue(h: Hooks, t: Type, v: Val, ro: bool) returns (err: Option<Error>)
      modifies this
      decreases v, 2
      ensures w == old(w) + Encoding.EncodeValue(h, t, v, ro).bytes
      ensures err == Encoding.EncodeValue(h, t, v, ro).err
    {
      match v
      case VBool(b) => err := EncodeBool(b);
      case VInt(i) => err := EncodeInt(i);
      case VUint(u) => err := EncodeUint(u);
      case VString(s) => err := EncodeString(s);
      case VSlice(_, items) =>
        if ro {
          err := Some(Panic);
        } else if t == ByteSlice {
          err := EncodeBinary(BytesOf(items));
        } else {
          err := EncodeArray(h, t, v, ro);
        }
      case VArray(_) =>
        if ro {
          err := Some(Panic);
        } else {
          err := EncodeArray(h, t, v, ro);
        }
      case VMap(_, _) => err := EncodeMap(h, t, v, ro);
      case VStruct(_) =>
        if ro {
          err := Some(Panic);
        } else {
          err := EncodeObject(h, t, v);
        }
      case VPtr(None) => err := EncodeNil();
      case VPtr(Some(x)) => err := EncodeValue(h, ElemOf(t), x, ro);
      case VIface(None) => err := EncodeNil();
      case VIface(Some(d)) => err := EncodeValue(h, d.typ, d.val, ro);
      case VOther => err := EncodeNil();
    }

    /** `encodeArray`: the count header, then each element's record, stopping at the first error. */
    method EncodeArray(h: Hooks, t: Type, v: Val, ro: bool) returns (err: Option<Error>)
      requires v.VSlice? || v.VArray?
      modifies this
      decreases v, 1
      ensures w == old(w) + ArrayHeader(|v.items|) + EncodeItems(h, ElemOf(t), v.items, 0, ro).bytes
      ensures err == EncodeItems(h, ElemOf(t), v.items, 0, ro).err
    {
      var items := v.items;
      var e := ElemOf(t);
      err := WriteArrayType(|items|);
      ghost var base := w;
      var i := 0;
      while i < |items|
        invariant 0 <= i <= |items| && err == None
        invariant Then(base, EncodeItems(h, e, items, 0, ro)) == Then(w, EncodeItems(h, e, items, i, ro))
      {
        ItemsStep(h, e, items, i, ro, w);
        var r := EncodeValue(h, e, items[i], ro);
        if r.Some? {
          err := r;
          return;
        }
        i := i + 1;
      }
      AppendEmpty(w);
    }

    /** `encodeMap`: the count header, then key and element record for each entry. */
    method EncodeMap(h: Hooks, t: Type, v: Val, ro: bool) returns (err: Option<Error>)
      requires v.VMap?
      modifies this
      decreases v, 1
      ensures w == old(w) + ObjectHeader(|v.entries|) + EncodeEntries(h, KeyOf(t), ElemOf(t), v.entries, 0, ro).bytes
      ensures err == EncodeEntries(h, KeyOf(t), ElemOf(t), v.entries, 0, ro).err
    {
      var es := v.entries;
      var kt, et := KeyOf(t), ElemOf(t);
      err := WriteObjectType(|es|);
      ghost var base := w;
      var i := 0;
      while i < |es|
        invariant 0 <= i <= |es| && err == None
        invariant Then(base, EncodeEntries(h, kt, et, es, 0, ro)) == Then(w, EncodeEntries(h, kt, et, es, i, ro))
      {
        EntriesStep(h, kt, et, es, i, ro, w);
        var r := EncodeValue(h, kt, es[i].key, ro);
        if r.Some? {
          err := r;
          return;
        }
        r := EncodeValue(h, et, es[i].elem, ro);
        if r.Some? {
          err := r;
          return;
        }
        i := i + 1;
      }
      AppendEmpty(w);
    }

    /**
     * `encodeObject`: a struct with a `MarshalBinary` hook becomes a Binary
     * record of its bytes, or returns the hook's error with nothing written.
     * Otherwise the non-empty fields are collected, in declaration order,
     * and written as name/value pairs after the count header.
     */
    method EncodeObject(h: Hooks, t: Type, v: Val) returns (err: Option<Error>)
      requires v.VStruct?
      modifies this
      decreases v, 1
      ensures w == old(w) + Encoding.EncodeObject(h, t, v).bytes
      ensures err == Encoding.EncodeObject(h, t, v).err
    {
      if t.Struct? && t.marshaler {
        match h.marshal(t, v) {
          case Failure(c) =>
            err := Some(HookFailed(c));
          case Success(data) =>
            err := EncodeBinary(data);
        }
        return;
      }
      var fs := v.fields;
      var keep := KeepFields(fs);
      err := WriteObjectType(|keep|);
      err := WritePairs(h, t, fs, keep);
    }

    /** The pair loop of `encodeObject`: each kept field's name as a Text record, then its value. */
    method WritePairs(h: Hooks, t: Type, fs: seq<Val>, keep: seq<nat>) returns (err: Option<Error>)
      requires forall k :: 0 <= k < |keep| ==> keep[k] < |fs|
      modifies this
      decreases fs, 0
      ensures w == old(w) + EncodePairs(h, t, fs, keep, 0).bytes
      ensures err == EncodePairs(h, t, fs, keep, 0).err
    {
      err := None;
      ghost var base := w;
      var j := 0;
      while j < |keep|
        invariant 0 <= j <= |keep| && err == None
        invariant Then(base, EncodePairs(h, t, fs, keep, 0)) == Then(w, EncodePairs(h, t, fs, keep, j))
      {
        var f := FieldAt(t, keep[j]);
        PairsStep(h, t, fs, keep, j, w);
        err := EncodeString(f.name);
        var r := EncodeValue(h, f.typ, fs[keep[j]], !f.exported);
        if r.Some? {
          err := r;
          return;
        }
        j := j + 1;
      }
      AppendEmpty(w);
    }

    /** `Encode(v interface{})`. */
    method Encode(h: Hooks, x: Option<Dyn>) returns (err: Option<Error>)
      modifies this
      ensures w == old(w) + Encoding.Encode(h, x).bytes
      ensures err == Encoding.Encode(h, x).err
    {
      match x
      case None => err := EncodeNil();
      case Some(d) => err := EncodeValue(h, d.typ, d.val, false);
    }
  }
}
