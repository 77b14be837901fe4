/**
 * The tag scheme of the wire format: every record starts with one tag byte,
 * an ASCII letter naming the wire category plus an offset naming the width
 * tier (0x00, 0x1A, 0x34, 0x4E for 8, 16, 32 and 64 bits).
 */
module Tags {
  import opened Wrappers

  type byte = b: int | 0 <= b < 256

  /** The four width tiers. */
  datatype Width = W8 | W16 | W32 | W64

  /** The tier offsets t8, t16, t32, t64 (0x1A * iota). */
  function Offset(w: Width): nat
  {
    match w
    case W8 => 0x00
    case W16 => 0x1A
    case W32 => 0x34
    case W64 => 0x4E
  }

  /** Number of payload (or length-prefix) bytes of a tier. */
  function Bytes(w: Width): nat
  {
    match w
    case W8 => 1
    case W16 => 2
    case W32 => 4
    case W64 => 8
  }

  /** A wire category together with its tier. */
  datatype Kind =
    | KNil
    | KTrue
    | KFalse
    | KInt(w: Width)
    | KUint(w: Width)
    | KFloat(w: Width)
    | KString(w: Width)
    | KArray(w: Width)
    | KObject(w: Width)
    | KBinary(w: Width)

  function Letter(k: Kind): char
  {
    match k
    case KNil => 'Z'
    case KTrue => 'T'
    case KFalse => 'F'
    case KInt(_) => 'I'
    case KUint(_) => 'U'
    case KFloat(_) => 'D'
    case KString(_) => 'S'
    case KArray(_) => 'A'
    case KObject(_) => 'O'
    case KBinary(_) => 'B'
  }

  /** Nil, true and false carry the 8-bit offset (zero). */
  function TierOf(k: Kind): Width
  {
    match k
    case KNil => W8
    case KTrue => W8
    case KFalse => W8
    case KInt(w) => w
    case KUint(w) => w
    case KFloat(w) => w
    case KString(w) => w
    case KArray(w) => w
    case KObject(w) => w
    case KBinary(w) => w
  }

  /** The tag byte of a kind: its letter plus its tier offset. */
  function Tag(k: Kind): byte
  {
    Letter(k) as int + Offset(TierOf(k))
  }

  /**
   * The kinds the source gives a named constant. The float tiers 8/16 and the
   * 64-bit tiers of text, arrays, objects and binaries are declared as `_`.
   */
  predicate Named(k: Kind)
  {
    match k
    case KFloat(w) => w == W32 || w == W64
    case KString(w) => w != W64
    case KArray(w) => w != W64
    case KObject(w) => w != W64
    case KBinary(w) => w != W64
    case _ => true
  }

  /**
   * The decoder's dispatch: the switch on the tag byte, case by case in the
   * source's order; a byte matching no named constant is unknown (None).
   */
  function Classify(b: byte): Option<Kind>
  {
    if b == Tag(KNil) then Some(KNil)
    else if b == Tag(KTrue) then Some(KTrue)
    else if b == Tag(KFalse) then Some(KFalse)
    else if b == Tag(KInt(W8)) then Some(KInt(W8))
    else if b == Tag(KInt(W16)) then Some(KInt(W16))
    else if b == Tag(KInt(W32)) then Some(KInt(W32))
    else if b == Tag(KInt(W64)) then Some(KInt(W64))
    else if b == Tag(KUint(W8)) then Some(KUint(W8))
    else if b == Tag(KUint(W16)) then Some(KUint(W16))
    else if b == Tag(KUint(W32)) then Some(KUint(W32))
    else if b == Tag(KUint(W64)) then Some(KUint(W64))
    else if b == Tag(KFloat(W32)) then Some(KFloat(W32))
    else if b == Tag(KFloat(W64)) then Some(KFloat(W64))
    else if b == Tag(KString(W8)) then Some(KString(W8))
    else if b == Tag(KString(W16)) then Some(KString(W16))
    else if b == Tag(KString(W32)) then Some(KString(W32))
    else if b == Tag(KBinary(W8)) then Some(KBinary(W8))
    else if b == Tag(KBinary(W16)) then Some(KBinary(W16))
    else if b == Tag(KBinary(W32)) then Some(KBinary(W32))
    else if b == Tag(KArray(W8)) then Some(KArray(W8))
    else if b == Tag(KArray(W16)) then Some(KArray(W16))
    else if b == Tag(KArray(W32)) then Some(KArray(W32))
    else if b == Tag(KObject(W8)) then Some(KObject(W8))
    else if b == Tag(KObject(W16)) then Some(KObject(W16))
    else if b == Tag(KObject(W32)) then Some(KObject(W32))
    else None
  }

  /** The tag values agree with the hexadecimal values the source documents. */
  lemma TagValues()
    ensures Tag(KNil) == 0x5A && Tag(KTrue) == 0x54 && Tag(KFalse) == 0x46
    ensures Tag(KInt(W8)) == 0x49 && Tag(KInt(W16)) == 0x63
    ensures Tag(KInt(W32)) == 0x7D && Tag(KInt(W64)) == 0x97
    ensures Tag(KUint(W8)) == 0x55 && Tag(KUint(W16)) == 0x6F
    ensures Tag(KUint(W32)) == 0x89 && Tag(KUint(W64)) == 0xA3
    ensures Tag(KFloat(W8)) == 0x44 && Tag(KFloat(W16)) == 0x5E
    ensures Tag(KFloat(W32)) == 0x78 && Tag(KFloat(W64)) == 0x92
    ensures Tag(KString(W8)) == 0x53 && Tag(KString(W16)) == 0x6D
    ensures Tag(KString(W32)) == 0x87 && Tag(KString(W64)) == 0xA1
    ensures Tag(KArray(W8)) == 0x41 && Tag(KArray(W16)) == 0x5B
    ensures Tag(KArray(W32)) == 0x75 && Tag(KArray(W64)) == 0x8F
    ensures Tag(KObject(W8)) == 0x4F && Tag(KObject(W16)) == 0x69
    ensures Tag(KObject(W32)) == 0x83 && Tag(KObject(W64)) == 0x9D
    ensures Tag(KBinary(W8)) == 0x42 && Tag(KBinary(W16)) == 0x5C
    ensures Tag(KBinary(W32)) == 0x76 && Tag(KBinary(W64)) == 0x90
  {
  }

  /**
   * Dispatch is unambiguous: every named tag reaches its own case, and the
   * unnamed `_` values fall through to the unknown-tag branch.
   */
  lemma ClassifyTag(k: Kind)
    ensures Classify(Tag(k)) == if Named(k) then Some(k) else None
  {
    TagValues();
    match k
    case KNil =>
    case KTrue =>
    case KFalse =>
    case KInt(w) => match w { case W8 => case W16 => case W32 => case W64 => }
    case KUint(w) => match w { case W8 => case W16 => case W32 => case W64 => }
    case KFloat(w) => match w { case W8 => case W16 => case W32 => case W64 => }
    case KString(w) => match w { case W8 => case W16 => case W32 => case W64 => }
    case KArray(w) => match w { case W8 => case W16 => case W32 => case W64 => }
    case KObject(w) => match w { case W8 => case W16 => case W32 => case W64 => }
    case KBinary(w) => match w { case W8 => case W16 => case W32 => case W64 => }
  }

  /** The named tag constants are pairwise distinct. */
  lemma TagsDistinct(k1: Kind, k2: Kind)
    requires Named(k1) && Named(k2) && k1 != k2
    ensures Tag(k1) != Tag(k2)
  {
    ClassifyTag(k1);
    ClassifyTag(k2);
  }

  /** A byte the decoder recognises is exactly the tag of the kind it yields. */
  lemma ClassifyInverse(b: byte)
    requires Classify(b).Some?
    ensures Named(Classify(b).value) && Tag(Classify(b).value) == b
  {
    TagValues();
  }
}
