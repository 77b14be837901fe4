/**
 * Fixed-width big-endian integers, as `encoding/binary` writes and reads them
 * with `binary.BigEndian`: unsigned values as base-256 digits, most
 * significant first, and signed values in two's complement.
 */
module BigEndian {
  import opened Tags

  /** 256 to the power n. */
  function Pow256(n: nat): (r: nat)
    ensures r >= 1
  {
    if n == 0 then 1 else 256 * Pow256(n - 1)
  }

  /**
   * The n low-order base-256 digits of x, most significant first. Digits
   * above the n-th are dropped, which is what a narrowing conversion such as
   * `uint8(n)` or `uint32(n)` does before the value is written.
   */
  function ToBE(x: nat, n: nat): (r: seq<byte>)
    ensures |r| == n
  {
    if n == 0 then [] else ToBE(x / 256, n - 1) + [x % 256]
  }

  /** The unsigned value of a big-endian byte string. */
  function FromBE(s: seq<byte>): (r: nat)
    ensures r < Pow256(|s|)
  {
    if s == [] then 0 else FromBE(s[..|s| - 1]) * 256 + s[|s| - 1]
  }

  /** The two's-complement reading of an n-byte unsigned value. */
  function Signed(u: nat, n: nat): int
  {
    if n > 0 && u >= Pow256(n) / 2 then u - Pow256(n) else u
  }

  /** The n-byte two's-complement bit pattern of i (truncating). */
  function Unsigned(i: int, n: nat): nat
  {
    i % Pow256(n)
  }

  /** The range of an n-byte two's-complement integer. */
  predicate InSignedRange(i: int, n: nat)
  {
    n > 0 && -(Pow256(n) / 2) <= i < Pow256(n) / 2
  }

  lemma Pow256Values()
    ensures Pow256(1) == 0x100 && Pow256(2) == 0x1_0000
    ensures Pow256(4) == 0x1_0000_0000 && Pow256(8) == 0x1_0000_0000_0000_0000
  {
    assert Pow256(2) == 256 * Pow256(1);
    assert Pow256(4) == 256 * (256 * Pow256(2));
    assert Pow256(8) == 256 * (256 * (256 * (256 * Pow256(4))));
  }

  /** Reading back n written digits gives x reduced modulo 256^n. */
  lemma {:induction false} FromToBE(x: nat, n: nat)
    ensures FromBE(ToBE(x, n)) == x % Pow256(n)
  {
    if n > 0 {
      var s := ToBE(x, n);
      assert s[..n - 1] == ToBE(x / 256, n - 1);
      FromToBE(x / 256, n - 1);
      DivMod256(x, Pow256(n - 1));
    }
  }

  /** (x / 256) % m * 256 + x % 256 == x % (256 * m). */
  lemma DivMod256(x: nat, m: nat)
    requires m >= 1
    ensures (x / 256) % m * 256 + x % 256 == x % (256 * m)
  {
    var q := x / 256;
    var r := x % 256;
    var a := q / m;
    var b := q % m;
    assert x == 256 * q + r;
    assert q == a * m + b;
    assert x == (256 * m) * a + (256 * b + r);
    assert 0 <= 256 * b + r < 256 * m;
    LemmaFundamentalDivMod(x, 256 * m, a, 256 * b + r);
  }

  /** Uniqueness of quotient and remainder. */
  lemma LemmaFundamentalDivMod(x: int, d: int, q: int, r: int)
    requires d > 0 && 0 <= r < d && x == d * q + r
    ensures x % d == r
  {
    var k := q - x / d;
    assert d * k == x % d - r;
    if k >= 1 {
      assert d * k == d + d * (k - 1);
    } else if k <= -1 {
      assert d * k == -d + d * (k + 1);
    }
  }

  /** A value in range survives writing and reading back. */
  lemma FromToBEInRange(x: nat, n: nat)
    requires x < Pow256(n)
    ensures FromBE(ToBE(x, n)) == x
  {
    FromToBE(x, n);
  }

  /** Writing back the value of a byte string gives the same bytes. */
  lemma {:induction false} ToFromBE(s: seq<byte>)
    ensures ToBE(FromBE(s), |s|) == s
  {
    if s != [] {
      var init := s[..|s| - 1];
      var x := FromBE(s);
      assert x / 256 == FromBE(init) && x % 256 == s[|s| - 1];
      ToFromBE(init);
      assert s == init + [s[|s| - 1]];
    }
  }

  /** Two's complement: the signed reading of the bit pattern is the value. */
  lemma SignedUnsigned(i: int, n: nat)
    requires InSignedRange(i, n)
    ensures Signed(Unsigned(i, n), n) == i
  {
    var m := Pow256(n);
    if i < 0 {
      LemmaFundamentalDivMod(i, m, -1, i + m);
    } else {
      LemmaFundamentalDivMod(i, m, 0, i);
    }
  }

  /** The signed reading of an n-byte pattern lies in the n-byte signed range. */
  lemma SignedRange(u: nat, n: nat)
    requires n > 0 && u < Pow256(n)
    ensures InSignedRange(Signed(u, n), n)
  {
  }
}
