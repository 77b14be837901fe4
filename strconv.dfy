/**
 * The parts of Go's `strconv` that the decoder applies to Text payloads:
 * `ParseBool`, and `ParseInt`/`ParseUint` in base 10 with a 64-bit size.
 * Text is handled as raw bytes; a result of None is a parse error
 * (syntax or range).
 */
module Strconv {
  import opened Wrappers
  import opened Tags

  const Two63: int := 0x8000_0000_0000_0000
  const Two64: int := 0x1_0000_0000_0000_0000

  /** The bytes of an ASCII literal. */
  function Ascii(s: string): (r: seq<byte>)
    ensures |r| == |s|
  {
    seq(|s|, i requires 0 <= i < |s| => (s[i] as int) % 256)
  }

  predicate IsDigit(b: byte)
  {
    '0' as int <= b <= '9' as int
  }

  predicate AllDigits(s: seq<byte>)
  {
    forall i :: 0 <= i < |s| ==> IsDigit(s[i])
  }

  /** The decimal value of a string of digits, most significant first. */
  function DigitsValue(s: seq<byte>): nat
    requires AllDigits(s)
  {
    if s == [] then 0
    else DigitsValue(s[..|s| - 1]) * 10 + (s[|s| - 1] - '0' as int)
  }

  /**
   * `strconv.ParseUint(s, 10, 64)`: a non-empty run of decimal digits (no
   * sign, no underscores in base 10) whose value fits in 64 bits.
   */
  function ParseUint(s: seq<byte>): (r: Option<nat>)
    ensures r.Some? ==> r.value < Two64
  {
    if |s| > 0 && AllDigits(s) && DigitsValue(s) < Two64 then Some(DigitsValue(s))
    else None
  }

  /**
   * `strconv.ParseInt(s, 10, 64)`: an optional '+' or '-', then what
   * ParseUint accepts; the magnitude may reach 2^63 only when negative.
   */
  function ParseInt(s: seq<byte>): (r: Option<int>)
    ensures r.Some? ==> -Two63 <= r.value < Two63
  {
    if |s| == 0 then None
    else
      var neg := s[0] == '-' as int;
      var digits := if s[0] == '+' as int || neg then s[1..] else s;
      match ParseUint(digits)
      case None => None
      case Some(u) =>
        if !neg && u >= Two63 then None
        else if neg && u > Two63 then None
        else if neg then Some(-(u as int))
        else Some(u)
  }

  /** `strconv.ParseBool`: the spellings Go accepts for true and for false. */
  function ParseBool(s: seq<byte>): Option<bool>
  {
    if s in {Ascii("1"), Ascii("t"), Ascii("T"), Ascii("TRUE"), Ascii("true"), Ascii("True")} then Some(true)
    else if s in {Ascii("0"), Ascii("f"), Ascii("F"), Ascii("FALSE"), Ascii("false"), Ascii("False")} then Some(false)
    else None
  }

  /** `strconv.FormatUint(u, 10)`: the shortest decimal spelling. */
  function FormatUint(u: nat): (r: seq<byte>)
    ensures |r| > 0
  {
    if u < 10 then ['0' as int + u] else FormatUint(u / 10) + ['0' as int + u % 10]
  }

  /** `strconv.FormatInt(i, 10)`: a '-' before the magnitude of a negative value. */
  function FormatInt(i: int): (r: seq<byte>)
    ensures |r| > 0
  {
    if i < 0 then ['-' as int] + FormatUint(-i) else FormatUint(i)
  }

  /** `strconv.FormatBool`. */
  function FormatBool(b: bool): seq<byte>
  {
    if b then Ascii("true") else Ascii("false")
  }

  lemma {:induction false} FormatUintDigits(u: nat)
    ensures AllDigits(FormatUint(u)) && DigitsValue(FormatUint(u)) == u
    ensures FormatUint(u)[0] != '0' as int || u == 0
  {
    if u >= 10 {
      FormatUintDigits(u / 10);
      var s := FormatUint(u);
      assert s[..|s| - 1] == FormatUint(u / 10);
    }
  }

  /** ParseUint reads back what FormatUint writes, for every 64-bit value. */
  lemma ParseFormatUint(u: nat)
    requires u < Two64
    ensures ParseUint(FormatUint(u)) == Some(u)
  {
    FormatUintDigits(u);
  }

  /** ParseInt reads back what FormatInt writes, for every 64-bit value. */
  lemma ParseFormatInt(i: int)
    requires -Two63 <= i < Two63
    ensures ParseInt(FormatInt(i)) == Some(i)
  {
    if i < 0 {
      FormatUintDigits(-i);
      assert FormatInt(i)[1..] == FormatUint(-i);
    } else {
      FormatUintDigits(i);
    }
  }

  /** ParseBool reads back what FormatBool writes. */
  lemma ParseFormatBool(b: bool)
    ensures ParseBool(FormatBool(b)) == Some(b)
  {
  }

  /** A sign alone, or a sign followed by a non-digit, is a syntax error. */
  lemma ParseIntRejects()
    ensures ParseInt(Ascii("-")) == None && ParseInt(Ascii("+")) == None
    ensures ParseInt(Ascii("")) == None && ParseUint(Ascii("-1")) == None
    ensures ParseUint(Ascii("")) == None && ParseUint(Ascii("+1")) == None
  {
    assert !IsDigit(Ascii("-1")[0]);
    assert !IsDigit(Ascii("+1")[0]);
  }

  /** The smallest int64 parses; its magnitude alone is out of range. */
  lemma ParseIntLimits()
    ensures ParseInt(FormatInt(-Two63)) == Some(-Two63)
    ensures ParseInt(FormatUint(Two63)) == None
  {
    ParseFormatInt(-Two63);
    FormatUintDigits(Two63);
    assert FormatUint(Two63)[0] != '-' as int;
    assert FormatUint(Two63)[0] != '+' as int;
  }
}
