/**
 * The slice of Go's type system and value space that the codec reaches
 * through `reflect`, as explicit data: a destination or source `Type`, the
 * `Val` it holds, the codec's error kinds, and the user hooks
 * `MarshalBinary`/`UnmarshalBinary` as given functions.
 */
module Reflect {
  import opened Wrappers
  import opened Tags

  /**
   * Go types by the kinds the codec distinguishes. Int and Uint carry their
   * bit width (the platform `int`, `uint` and `uintptr` count as 64 bits);
   * a struct records whether its value has a `MarshalBinary` method and
   * whether its pointer has an `UnmarshalBinary` method; an interface
   * records the size of its method set. Every other kind (chan, func,
   * complex, unsafe pointer) is Other.
   */
  datatype Type =
    | Bool
    | Int(bits: nat)
    | Uint(bits: nat)
    | String
    | Slice(elem: Type)
    | Array(len: nat, elem: Type)
    | Map(key: Type, elem: Type)
    | Struct(fields: seq<Field>, marshaler: bool, unmarshaler: bool)
    | Ptr(elem: Type)
    | Interface(methods: nat)
    | Other

  /** A struct field: its name, whether it is exported, and its type. */
  datatype Field = Field(name: seq<byte>, exported: bool, typ: Type)

  /**
   * Go values. A slice or map records whether it is nil; a map lists its
   * entries (the model fixes one iteration order); a pointer is nil or
   * points at a value; an interface is nil or holds a dynamic value.
   */
  datatype Val =
    | VBool(b: bool)
    | VInt(i: int)
    | VUint(u: nat)
    | VString(s: seq<byte>)
    | VSlice(isNil: bool, items: seq<Val>)
    | VArray(items: seq<Val>)
    | VMap(mapNil: bool, entries: seq<Entry>)
    | VStruct(fields: seq<Val>)
    | VPtr(target: Option<Val>)
    | VIface(dyn: Option<Dyn>)
    | VOther

  datatype Entry = Entry(key: Val, elem: Val)

  /** The dynamic type and value held by an interface. */
  datatype Dyn = Dyn(typ: Type, val: Val)

  /**
   * The errors the codec returns: the reader's EOF and unexpected EOF, the
   * two DecoderError cases, a DecoderTypeError naming the destination type,
   * an error returned by a user hook, a run-time panic inside `reflect`, and
   * the float paths this model does not carry.
   */
  datatype Error =
    | EOF
    | UnexpectedEOF
    | NonPointer
    | NilPointer
    | TypeMismatch(dest: Type)
    | HookFailed(code: nat)
    | Panic
    | FloatUnmodelled

  /** What a user `UnmarshalBinary` leaves in its receiver, and its error. */
  datatype Unmarshaled = Unmarshaled(v: Val, err: Option<nat>)

  /**
   * The user hooks, given as functions of the struct type and value:
   * `MarshalBinary` yields bytes or an error code, `UnmarshalBinary` updates
   * the receiver and may fail.
   */
  datatype Hooks = Hooks(
    marshal: (Type, Val) -> Result<seq<byte>, nat>,
    unmarshal: (Type, Val, seq<byte>) -> Unmarshaled)

  function Modulus(bits: nat): (r: nat)
    ensures r >= 1
  {
    if bits == 0 then 1 else 2 * Modulus(bits - 1)
  }

  /** `reflect.Value.OverflowInt` negated: i fits a signed integer of that width. */
  predicate FitsInt(i: int, bits: nat)
  {
    bits > 0 && -(Modulus(bits) / 2) <= i < Modulus(bits) / 2
  }

  /** `reflect.Value.OverflowUint` negated: u fits an unsigned integer of that width. */
  predicate FitsUint(u: nat, bits: nat)
  {
    u < Modulus(bits)
  }

  predicate ValidBits(bits: nat)
  {
    bits == 8 || bits == 16 || bits == 32 || bits == 64
  }

  /** The field at index i of a struct type (a nil-typed stand-in otherwise). */
  function FieldAt(t: Type, i: nat): Field
  {
    if t.Struct? && i < |t.fields| then t.fields[i] else Field([], false, Other)
  }

  /** `Type.Elem()` of a slice, array, map or pointer type. */
  function ElemOf(t: Type): Type
  {
    if t.Slice? || t.Array? || t.Map? || t.Ptr? then t.elem else Other
  }

  /** `Type.Key()` of a map type. */
  function KeyOf(t: Type): Type
  {
    if t.Map? then t.key else Other
  }

  /** How many pointer types wrap t. */
  function PtrDepth(t: Type): nat
  {
    if t.Ptr? then 1 + PtrDepth(t.elem) else 0
  }

  /** Types that Go could declare: standard widths and distinct field names. */
  predicate ValidType(t: Type)
  {
    match t
    case Int(bits) => ValidBits(bits)
    case Uint(bits) => ValidBits(bits)
    case Slice(e) => ValidType(e)
    case Array(_, e) => ValidType(e)
    case Map(k, e) => ValidType(k) && ValidType(e)
    case Struct(fs, _, _) =>
      (forall i :: 0 <= i < |fs| ==> ValidType(fs[i].typ)) &&
      (forall i, j :: 0 <= i < j < |fs| ==> fs[i].name != fs[j].name)
    case Ptr(e) => ValidType(e)
    case _ => true
  }

  /** The zero value of a type, as `reflect.Zero` and `reflect.New` give it. */
  function Zero(t: Type): Val
  {
    match t
    case Bool => VBool(false)
    case Int(_) => VInt(0)
    case Uint(_) => VUint(0)
    case String => VString([])
    case Slice(_) => VSlice(true, [])
    case Array(n, e) => VArray(seq(n, _ => Zero(e)))
    case Map(_, _) => VMap(true, [])
    case Struct(fs, _, _) => VStruct(seq(|fs|, i requires 0 <= i < |fs| => Zero(fs[i].typ)))
    case Ptr(_) => VPtr(None)
    case Interface(_) => VIface(None)
    case Other => VOther
  }

  /** Entries i and j of a map hold different keys. */
  predicate KeysDiffer(es: seq<Entry>, i: nat, j: nat)
    requires i < |es| && j < |es|
  {
    es[i].key != es[j].key
  }

  /** Map keys are distinct. */
  predicate DistinctKeys(es: seq<Entry>)
  {
    forall i, j :: 0 <= i < j < |es| ==> KeysDiffer(es, i, j)
  }

  /** v is a value of type t. */
  predicate HasType(t: Type, v: Val)
    decreases v
  {
    match v
    case VBool(_) => t.Bool?
    case VInt(i) => t.Int? && FitsInt(i, t.bits)
    case VUint(u) => t.Uint? && FitsUint(u, t.bits)
    case VString(_) => t.String?
    case VSlice(isNil, items) =>
      t.Slice? && (isNil ==> items == []) &&
      forall i :: 0 <= i < |items| ==> HasType(t.elem, items[i])
    case VArray(items) =>
      t.Array? && |items| == t.len &&
      forall i :: 0 <= i < |items| ==> HasType(t.elem, items[i])
    case VMap(isNil, es) =>
      t.Map? && (isNil ==> es == []) && DistinctKeys(es) &&
      forall i :: 0 <= i < |es| ==> HasType(t.key, es[i].key) && HasType(t.elem, es[i].elem)
    case VStruct(vs) =>
      t.Struct? && |vs| == |t.fields| &&
      forall i :: 0 <= i < |vs| ==> HasType(t.fields[i].typ, vs[i])
    case VPtr(p) =>
      t.Ptr? && (p.Some? ==> HasType(t.elem, p.value))
    case VIface(None) => t.Interface?
    case VIface(Some(d)) =>
      t.Interface? && !d.typ.Interface? && ValidType(d.typ) && HasType(d.typ, d.val)
    case VOther => t.Other?
  }

  /**
   * Values Go can hash as map keys: a slice or map held by an interface key
   * makes `SetMapIndex` panic.
   */
  predicate Hashable(v: Val)
  {
    match v
    case VSlice(_, _) => false
    case VMap(_, _) => false
    case VArray(items) => forall i :: 0 <= i < |items| ==> Hashable(items[i])
    case VStruct(vs) => forall i :: 0 <= i < |vs| ==> Hashable(vs[i])
    case VIface(None) => true
    case VIface(Some(d)) => Hashable(d.val)
    case _ => true
  }

  /** The byte held by an element of a `[]byte`. */
  function ByteOf(v: Val): byte
  {
    if v.VUint? then v.u % 256 else 0
  }

  function BytesOf(items: seq<Val>): (r: seq<byte>)
    ensures |r| == |items|
  {
    seq(|items|, i requires 0 <= i < |items| => ByteOf(items[i]))
  }

  /** A non-nil `[]byte` holding bs, as `reflect.ValueOf(data)` gives it. */
  function BytesVal(bs: seq<byte>): Val
  {
    VSlice(false, seq(|bs|, i requires 0 <= i < |bs| => VUint(bs[i])))
  }

  /** The type `[]byte`. */
  const ByteSlice: Type := Slice(Uint(8))

  /** The empty interface `interface{}`. */
  const Any: Type := Interface(0)

  /** The zero value of every type belongs to it. */
  lemma {:induction false} ZeroHasType(t: Type)
    requires ValidType(t)
    ensures HasType(t, Zero(t))
  {
    match t
    case Array(n, e) =>
      ZeroHasType(e);
    case Struct(fs, _, _) =>
      var z := Zero(t);
      forall i | 0 <= i < |fs|
        ensures HasType(fs[i].typ, z.fields[i])
      {
        ZeroHasType(fs[i].typ);
      }
    case _ =>
  }

  /** A `[]byte` built from bytes gives back those bytes and is a value of `[]byte`. */
  lemma BytesValRoundTrip(bs: seq<byte>)
    ensures BytesOf(BytesVal(bs).items) == bs
    ensures HasType(ByteSlice, BytesVal(bs))
  {
    assert Modulus(8) == 256 by {
      assert Modulus(4) == 16;
    }
  }
}
