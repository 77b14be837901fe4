/**
 * The entry points of the package: `Marshal` encodes its arguments one
 * after another onto one buffer, and `Unmarshal` decodes them one after
 * another from one reader, each stopping at the first error. A batch of
 * portable values comes back whole, in order.
 */
module Batch {
  import opened Wrappers
  import opened Tags
  import opened Reflect
  import opened Encoding
  import opened Decoding
  import opened RoundTrip
  import Encoders
  import Decoders

  /**
   * `encode(enc, vv)`: the values encoded in turn onto one writer; the
   * bytes are everything written, up to and including the record that
   * failed.
   */
  function EncodeAll(h: Hooks, xs: seq<Option<Dyn>>): EncOut
    decreases |xs|
  {
    if xs == [] then Done([])
    else
      var e := Encode(h, xs[0]);
      if e.err.Some? then e
      else
        var r := EncodeAll(h, xs[1..]);
        EncOut(e.bytes + r.bytes, r.err)
  }

  /** `Marshal(v, vv...)`: the buffer's bytes, or nil bytes and the first error. */
  function Marshaled(h: Hooks, v: Option<Dyn>, vv: seq<Option<Dyn>>): Result<seq<byte>, Error>
  {
    var e := EncodeAll(h, [v] + vv);
    if e.err.Some? then Failure(e.err.value) else Success(e.bytes)
  }

  /** What is left in each argument of `decode`, the reader's cursor and the error. */
  datatype DecAll = DecAll(xs: seq<Option<Dyn>>, pos: nat, err: Option<Error>)

  /**
   * `decode(dec, vv)`: the arguments decoded in turn from one reader. The
   * argument whose decoding failed keeps what was decoded into it; the
   * ones after it are not touched.
   */
  function DecodeAll(mode: ReadMode, h: Hooks, xs: seq<Option<Dyn>>, data: seq<byte>, pos: nat): (r: DecAll)
    requires pos <= |data|
    ensures |r.xs| == |xs| && pos <= r.pos <= |data|
    decreases |xs|
  {
    if xs == [] then DecAll([], pos, None)
    else
      var d := Decode(mode, h, xs[0], data, pos);
      if d.err.Some? then DecAll([d.x] + xs[1..], d.pos, d.err)
      else
        var r := DecodeAll(mode, h, xs[1..], data, d.pos);
        DecAll([d.x] + r.xs, r.pos, r.err)
  }

  /** Bytes already written in front of what the rest of the batch writes. */
  function Written(w: seq<byte>, r: EncOut): EncOut
  {
    EncOut(w + r.bytes, r.err)
  }

  /** Arguments already decoded in front of what the rest of the batch leaves. */
  function Resumed(done: seq<Option<Dyn>>, r: DecAll): DecAll
  {
    DecAll(done + r.xs, r.pos, r.err)
  }

  lemma EncodeAllStep(h: Hooks, xs: seq<Option<Dyn>>, i: nat)
    requires i < |xs|
    ensures EncodeAll(h, xs[i..]) ==
      var e := Encode(h, xs[i]);
      if e.err.Some? then e else Written(e.bytes, EncodeAll(h, xs[i + 1..]))
  {
    assert xs[i..][1..] == xs[i + 1..];
  }

  lemma DecodeAllStep(mode: ReadMode, h: Hooks, xs: seq<Option<Dyn>>, i: nat, data: seq<byte>, pos: nat)
    requires i < |xs| && pos <= |data|
    ensures DecodeAll(mode, h, xs[i..], data, pos) ==
      var d := Decode(mode, h, xs[i], data, pos);
      if d.err.Some? then DecAll([d.x] + xs[i + 1..], d.pos, d.err)
      else Resumed([d.x], DecodeAll(mode, h, xs[i + 1..], data, d.pos))
  {
    assert xs[i..][1..] == xs[i + 1..];
  }

  /** `Marshal`: one Encoder over a fresh buffer, fed every argument in turn. */
  method Marshal(h: Hooks, v: Option<Dyn>, vv: seq<Option<Dyn>>) returns (r: Result<seq<byte>, Error>)
    ensures r == Marshaled(h, v, vv)
  {
    var xs := [v] + vv;
    var enc := new Encoders.Encoder();
    var i := 0;
    while i < |xs|
      invariant 0 <= i <= |xs|
      invariant Written(enc.w, EncodeAll(h, xs[i..])) == EncodeAll(h, xs)
    {
      EncodeAllStep(h, xs, i);
      ghost var w := enc.w;
      var err := enc.Encode(h, xs[i]);
      if err.Some? {
        return Failure(err.value);
      }
      assert w + Encode(h, xs[i]).bytes + EncodeAll(h, xs[i + 1..]).bytes
          == w + (Encode(h, xs[i]).bytes + EncodeAll(h, xs[i + 1..]).bytes);
      i := i + 1;
    }
    assert enc.w + [] == enc.w;
    return Success(enc.w);
  }

  /**
   * `Unmarshal`: one Decoder over the bytes, each argument decoded in turn.
   * An argument is modelled by the value it points to; the method returns
   * what is left in every argument.
   */
  method Unmarshal(mode: ReadMode, h: Hooks, data: seq<byte>, v: Option<Dyn>, vv: seq<Option<Dyn>>)
    returns (ys: seq<Option<Dyn>>, err: Option<Error>)
    ensures ys == DecodeAll(mode, h, [v] + vv, data, 0).xs
    ensures err == DecodeAll(mode, h, [v] + vv, data, 0).err
  {
    var xs := [v] + vv;
    var dec := new Decoders.Decoder(mode, h, data);
    var done: seq<Option<Dyn>> := [];
    while |done| < |xs|
      invariant dec.Valid() && |done| <= |xs|
      invariant Resumed(done, DecodeAll(mode, h, xs[|done|..], data, dec.pos)) == DecodeAll(mode, h, xs, data, 0)
      decreases |xs| - |done|
    {
      var i := |done|;
      ghost var p := dec.pos;
      var y, e := dec.Decode(xs[i]);
      UnmarshalStep(mode, h, xs, done, data, p, y, e, dec.pos, DecodeAll(mode, h, xs, data, 0));
      if e.Some? {
        return done + [y] + xs[i + 1..], e;
      }
      done := done + [y];
    }
    Regroup(done, [], []);
    return done, None;
  }

  /** One turn of the loop of `Unmarshal`: the argument after `done` decodes into y and stops at q. */
  lemma UnmarshalStep(mode: ReadMode, h: Hooks, xs: seq<Option<Dyn>>, done: seq<Option<Dyn>>, data: seq<byte>, pos: nat,
                      y: Option<Dyn>, e: Option<Error>, q: nat, whole: DecAll)
    requires |done| < |xs| && pos <= |data|
    requires Resumed(done, DecodeAll(mode, h, xs[|done|..], data, pos)) == whole
    requires DecDyn(y, q, e) == Decode(mode, h, xs[|done|], data, pos)
    ensures q <= |data|
    ensures e.Some? ==> DecAll(done + [y] + xs[|done| + 1..], q, e) == whole
    ensures e.None? ==> Resumed(done + [y], DecodeAll(mode, h, xs[|done| + 1..], data, q)) == whole
  {
    var i := |done|;
    DecodeAllStep(mode, h, xs, i, data, pos);
    Regroup(done, [y], xs[i + 1..]);
    if e.None? {
      Regroup(done, [y], DecodeAll(mode, h, xs[i + 1..], data, q).xs);
    }
  }

  lemma Regroup<T>(a: seq<T>, b: seq<T>, c: seq<T>)
    ensures a + (b + c) == a + b + c && a + [] == a
  {
  }

  /** Every value encodes: the batch is the records back to back. */
  lemma {:induction false} EncodeAllOk(h: Hooks, xs: seq<Option<Dyn>>)
    requires forall j :: 0 <= j < |xs| ==> Encode(h, xs[j]).err.None?
    ensures EncodeAll(h, xs) == Done(Encoders.Concat(Records(h, xs)))
    decreases |xs|
  {
    if xs != [] {
      assert Records(h, xs)[1..] == Records(h, xs[1..]);
      EncodeAllOk(h, xs[1..]);
    }
  }

  /** The records of the values, one by one. */
  function Records(h: Hooks, xs: seq<Option<Dyn>>): (r: seq<seq<byte>>)
    ensures |r| == |xs|
  {
    seq(|xs|, j requires 0 <= j < |xs| => Encode(h, xs[j]).bytes)
  }

  /** The first value that fails to encode names the error of the batch. */
  lemma {:induction false} EncodeAllFails(h: Hooks, xs: seq<Option<Dyn>>, k: nat)
    requires k < |xs| && Encode(h, xs[k]).err.Some?
    requires forall j :: 0 <= j < k ==> Encode(h, xs[j]).err.None?
    ensures EncodeAll(h, xs).err == Encode(h, xs[k]).err
    decreases k
  {
    if k > 0 {
      EncodeAllFails(h, xs[1..], k - 1);
    }
  }

  /** `Marshal` succeeds with the records back to back exactly when every value encodes. */
  lemma MarshalOk(h: Hooks, v: Option<Dyn>, vv: seq<Option<Dyn>>)
    requires forall j :: 0 <= j < |[v] + vv| ==> Encode(h, ([v] + vv)[j]).err.None?
    ensures Marshaled(h, v, vv) == Success(Encoders.Concat(Records(h, [v] + vv)))
  {
    EncodeAllOk(h, [v] + vv);
  }

  /** `Marshal` fails with the error of the first value that fails. */
  lemma MarshalFails(h: Hooks, v: Option<Dyn>, vv: seq<Option<Dyn>>, k: nat)
    requires k < |[v] + vv| && Encode(h, ([v] + vv)[k]).err.Some?
    requires forall j :: 0 <= j < k ==> Encode(h, ([v] + vv)[j]).err.None?
    ensures Marshaled(h, v, vv) == Failure(Encode(h, ([v] + vv)[k]).err.value)
  {
    EncodeAllFails(h, [v] + vv, k);
  }

  /** The values handed to `Marshal`, as interfaces. */
  function Values(ds: seq<Dyn>): (r: seq<Option<Dyn>>)
    ensures |r| == |ds|
  {
    seq(|ds|, k requires 0 <= k < |ds| => Some(ds[k]))
  }

  /** The arguments handed to `Unmarshal`: pointers to zero values of the same types. */
  function Targets(ds: seq<Dyn>): (r: seq<Option<Dyn>>)
    ensures |r| == |ds|
  {
    seq(|ds|, k requires 0 <= k < |ds| => Some(Dyn(Ptr(ds[k].typ), VPtr(Some(Zero(ds[k].typ))))))
  }

  /** The same pointers once they point at the marshalled values. */
  function Filled(ds: seq<Dyn>): (r: seq<Option<Dyn>>)
    ensures |r| == |ds|
  {
    seq(|ds|, k requires 0 <= k < |ds| => Some(Dyn(Ptr(ds[k].typ), VPtr(Some(ds[k].val)))))
  }

  predicate AllPortable(h: Hooks, ds: seq<Dyn>)
  {
    forall k :: 0 <= k < |ds| ==> Portable(h, ds[k].typ, ds[k].val)
  }

  /** A batch of portable values found on the stream at pos decodes back, in order, up to end. */
  lemma {:induction false} DecodeAllRound(mode: ReadMode, h: Hooks, ds: seq<Dyn>, data: seq<byte>, pos: nat, end: nat)
    requires AllPortable(h, ds)
    requires At(data, pos, EncodeAll(h, Values(ds)).bytes) == true
    requires end == pos + |EncodeAll(h, Values(ds)).bytes| && Room(mode, data, end)
    ensures EncodeAll(h, Values(ds)).err.None?
    ensures DecodeAll(mode, h, Targets(ds), data, pos) == DecAll(Filled(ds), end, None)
    decreases |ds|
  {
    if ds == [] {
      assert Values(ds) == [] && Targets(ds) == [] && Filled(ds) == [];
      assert EncodeAll(h, Values(ds)) == Done([]);
      assert end == pos;
    } else {
      var q := BatchFirst(mode, h, ds, data, pos, end);
      BatchRest(h, ds, data, pos, end, q);
      DecodeAllRound(mode, h, ds[1..], data, q, end);
    }
  }

  /** The first record of the batch decodes back, and the decoding of the batch resumes right after it. */
  lemma BatchFirst(mode: ReadMode, h: Hooks, ds: seq<Dyn>, data: seq<byte>, pos: nat, end: nat) returns (q: nat)
    requires ds != [] && AllPortable(h, ds)
    requires At(data, pos, EncodeAll(h, Values(ds)).bytes) == true
    requires end == pos + |EncodeAll(h, Values(ds)).bytes| && Room(mode, data, end)
    ensures Encode(h, Some(Dyn(ds[0].typ, ds[0].val))).err.None?
    ensures q == pos + |Encode(h, Some(Dyn(ds[0].typ, ds[0].val))).bytes| && q <= |data|
    ensures DecodeAll(mode, h, Targets(ds), data, pos) == Resumed([Filled(ds)[0]], DecodeAll(mode, h, Targets(ds[1..]), data, q))
    ensures Filled(ds) == [Filled(ds)[0]] + Filled(ds[1..])
  {
    BatchTail(h, ds);
    var t, v := ds[0].typ, ds[0].val;
    FirstAt(mode, h, Some(Dyn(t, v)), Values(ds[1..]), data, pos, end);
    RoundTripAt(mode, h, t, v, data, pos);
    q := pos + |Encode(h, Some(Dyn(t, v))).bytes|;
    DecodeNext(mode, h, Some(Dyn(Ptr(t), VPtr(Some(Zero(t))))), Targets(ds[1..]), data, pos, Some(Dyn(Ptr(t), VPtr(Some(v)))), q);
  }

  /** Behind a first record that encodes and ends at q, the rest of the batch lies on the stream up to end. */
  lemma BatchRest(h: Hooks, ds: seq<Dyn>, data: seq<byte>, pos: nat, end: nat, q: nat)
    requires ds != [] && AllPortable(h, ds)
    requires At(data, pos, EncodeAll(h, Values(ds)).bytes) == true
    requires end == pos + |EncodeAll(h, Values(ds)).bytes|
    requires Encode(h, Some(Dyn(ds[0].typ, ds[0].val))).err.None?
    requires q == pos + |Encode(h, Some(Dyn(ds[0].typ, ds[0].val))).bytes|
    ensures AllPortable(h, ds[1..]) && At(data, q, EncodeAll(h, Values(ds[1..])).bytes) == true
    ensures end == q + |EncodeAll(h, Values(ds[1..])).bytes|
    ensures EncodeAll(h, Values(ds)).err == EncodeAll(h, Values(ds[1..])).err
  {
    BatchTail(h, ds);
    RestAt(h, Some(Dyn(ds[0].typ, ds[0].val)), Values(ds[1..]), data, pos, end);
  }

  /** Behind a first record that encodes, the rest of the batch lies on the stream up to end. */
  lemma RestAt(h: Hooks, x: Option<Dyn>, xs: seq<Option<Dyn>>, data: seq<byte>, pos: nat, end: nat)
    requires Encode(h, x).err.None?
    requires At(data, pos, EncodeAll(h, [x] + xs).bytes) == true && end == pos + |EncodeAll(h, [x] + xs).bytes|
    ensures At(data, pos + |Encode(h, x).bytes|, EncodeAll(h, xs).bytes) == true
    ensures end == pos + |Encode(h, x).bytes| + |EncodeAll(h, xs).bytes|
    ensures EncodeAll(h, [x] + xs).err == EncodeAll(h, xs).err
  {
    EncodeAllCons(h, x, xs);
    AtSplit(data, pos, Encode(h, x).bytes, EncodeAll(h, xs).bytes);
  }

  /** A first argument that decodes into y and stops at q leaves the rest of the batch to begin at q. */
  lemma DecodeNext(mode: ReadMode, h: Hooks, x: Option<Dyn>, xs: seq<Option<Dyn>>, data: seq<byte>, pos: nat, y: Option<Dyn>, q: nat)
    requires pos <= |data| && Decode(mode, h, x, data, pos) == DecDyn(y, q, None)
    ensures DecodeAll(mode, h, [x] + xs, data, pos) == Resumed([y], DecodeAll(mode, h, xs, data, q))
  {
    DecodeAllCons(mode, h, x, xs, data, pos);
  }

  /** The first record of a batch lies where the batch does, with room behind it. */
  lemma FirstAt(mode: ReadMode, h: Hooks, x: Option<Dyn>, xs: seq<Option<Dyn>>, data: seq<byte>, pos: nat, end: nat)
    requires At(data, pos, EncodeAll(h, [x] + xs).bytes) == true
    requires end == pos + |EncodeAll(h, [x] + xs).bytes| && Room(mode, data, end)
    ensures At(data, pos, Encode(h, x).bytes) == true && Room(mode, data, pos + |Encode(h, x).bytes|)
  {
    EncodeAllCons(h, x, xs);
    if Encode(h, x).err.None? {
      AtSplit(data, pos, Encode(h, x).bytes, EncodeAll(h, xs).bytes);
    }
  }

  lemma EncodeAllCons(h: Hooks, x: Option<Dyn>, xs: seq<Option<Dyn>>)
    ensures EncodeAll(h, [x] + xs) ==
      var e := Encode(h, x);
      if e.err.Some? then e else Written(e.bytes, EncodeAll(h, xs))
  {
    assert ([x] + xs)[1..] == xs;
  }

  lemma DecodeAllCons(mode: ReadMode, h: Hooks, x: Option<Dyn>, xs: seq<Option<Dyn>>, data: seq<byte>, pos: nat)
    requires pos <= |data|
    ensures DecodeAll(mode, h, [x] + xs, data, pos) ==
      var d := Decode(mode, h, x, data, pos);
      if d.err.Some? then DecAll([d.x] + xs, d.pos, d.err)
      else Resumed([d.x], DecodeAll(mode, h, xs, data, d.pos))
  {
    assert ([x] + xs)[1..] == xs;
  }

  /** The first value of a batch and the batch after it. */
  lemma BatchTail(h: Hooks, ds: seq<Dyn>)
    requires ds != [] && AllPortable(h, ds)
    ensures Values(ds) == [Some(Dyn(ds[0].typ, ds[0].val))] + Values(ds[1..])
    ensures Targets(ds) == [Some(Dyn(Ptr(ds[0].typ), VPtr(Some(Zero(ds[0].typ)))))] + Targets(ds[1..])
    ensures Filled(ds) == [Some(Dyn(Ptr(ds[0].typ), VPtr(Some(ds[0].val))))] + Filled(ds[1..])
    ensures Portable(h, ds[0].typ, ds[0].val) && AllPortable(h, ds[1..])
  {
    assert Values(ds) == [Values(ds)[0]] + Values(ds)[1..];
    assert Values(ds)[1..] == Values(ds[1..]);
    assert Targets(ds) == [Targets(ds)[0]] + Targets(ds)[1..];
    assert Targets(ds)[1..] == Targets(ds[1..]);
    assert Filled(ds) == [Filled(ds)[0]] + Filled(ds)[1..];
    assert Filled(ds)[1..] == Filled(ds[1..]);
    forall k | 0 <= k < |ds[1..]|
      ensures Portable(h, ds[1..][k].typ, ds[1..][k].val)
    {
      assert ds[1..][k] == ds[k + 1];
    }
  }

  /**
   * The batch round trip of `Marshal` and `Unmarshal`: values marshalled
   * together and unmarshalled into pointers to zero values of their types
   * come back, each into its own pointer, with no error.
   */
  lemma MarshalRoundTrip(mode: ReadMode, h: Hooks, d: Dyn, ds: seq<Dyn>, rest: seq<byte>)
    requires AllPortable(h, [d] + ds)
    requires mode == FullRead || rest != []
    ensures Marshaled(h, Some(d), Values(ds)).Success?
    ensures DecodeAll(mode, h, Targets([d] + ds), Marshaled(h, Some(d), Values(ds)).value + rest, 0).xs == Filled([d] + ds)
    ensures DecodeAll(mode, h, Targets([d] + ds), Marshaled(h, Some(d), Values(ds)).value + rest, 0).err.None?
  {
    assert [Some(d)] + Values(ds) == Values([d] + ds);
    var bs := EncodeAll(h, Values([d] + ds)).bytes;
    assert (bs + rest)[0..|bs|] == bs;
    AtSlice(bs + rest, 0, bs);
    DecodeAllRound(mode, h, [d] + ds, bs + rest, 0, |bs|);
  }
}
