/**
 * The Adler-32 checksum that ends a zlib stream (section 2.2 of RFC 1950),
 * defined from its two running sums: A is one plus the sum of the bytes and
 * B is the sum of the successive values of A, both taken modulo 65521; the
 * checksum is B * 65536 + A.
 *
 * The PNG writer keeps A and B already reduced, updating them byte by byte
 * as `a = (a + u) % 65521; b = (b + a) % 65521`; `RunningUpdate` shows that
 * this keeps them equal to the reduced reference sums.
 */
module Adler32 {
  import opened Bytes

  /** The largest prime below 65536. */
  const Modulus: nat := 65521

  /** A, unreduced: one plus the sum of the bytes of `s`. */
  function SumA(s: seq<byte>): nat
    decreases |s|
  {
    if s == [] then 1 else SumA(s[..|s| - 1]) + s[|s| - 1] as nat
  }

  /** B, unreduced: the sum of the values A takes after each byte of `s`. */
  function SumB(s: seq<byte>): nat
    decreases |s|
  {
    if s == [] then 0 else SumB(s[..|s| - 1]) + SumA(s)
  }

  /** The checksum as RFC 1950 stores it, a 32-bit value: B in the high half, A in the low half. */
  function Checksum(s: seq<byte>): (r: nat)
    ensures r < 0x1_0000_0000
    ensures r / 65536 == SumB(s) % Modulus && r % 65536 == SumA(s) % Modulus
  {
    Word(SumA(s) % Modulus, SumB(s) % Modulus)
  }

  /** The 32-bit word `(b << 16) | a` of two reduced sums, as a number. */
  function Word(a: nat, b: nat): (r: nat)
    requires a < Modulus && b < Modulus
    ensures r < 0x1_0000_0000 && r / 65536 == b && r % 65536 == a
  {
    assert b * 65536 <= (Modulus - 1) * 65536;
    b * 65536 + a
  }

  /**
   * One step of the writer's running update keeps its registers equal to
   * the reference sums reduced modulo 65521, and below 65521.
   */
  lemma RunningUpdate(s: seq<byte>, u: byte, a: nat, b: nat)
    requires a == SumA(s) % Modulus && b == SumB(s) % Modulus
    ensures (a + u as nat) % Modulus == SumA(s + [u]) % Modulus
    ensures (b + (a + u as nat) % Modulus) % Modulus == SumB(s + [u]) % Modulus
    ensures (a + u as nat) % Modulus < Modulus && (b + (a + u as nat) % Modulus) % Modulus < Modulus
  {
    var t := s + [u];
    assert t[..|t| - 1] == s;
    ModAddLeft(SumA(s), u as nat);
    ModAddBoth(SumB(s), SumA(t));
  }

  /** `(x % m + y) % m == (x + y) % m` for the Adler modulus. */
  lemma ModAddLeft(x: nat, y: nat)
    ensures (x % Modulus + y) % Modulus == (x + y) % Modulus
  {
    var q := x / Modulus;
    assert x == q * Modulus + x % Modulus;
    assert x + y == (x % Modulus + y) + q * Modulus;
    ModShift(x % Modulus + y, q);
  }

  /** `(x % m + y % m) % m == (x + y) % m` for the Adler modulus. */
  lemma ModAddBoth(x: nat, y: nat)
    ensures (x % Modulus + y % Modulus) % Modulus == (x + y) % Modulus
  {
    ModAddLeft(x, y % Modulus);
    ModAddLeft(y, x);
    assert (x + y % Modulus) == (y % Modulus + x);
  }

  /** Adding a multiple of the modulus does not change the residue. */
  lemma ModShift(z: nat, q: nat)
    ensures (z + q * Modulus) % Modulus == z % Modulus
  {
    var r := z % Modulus;
    assert z == (z / Modulus) * Modulus + r;
    assert z + q * Modulus == (z / Modulus + q) * Modulus + r;
  }

  /**
   * The closed forms of RFC 1950: A is one plus the sum of the bytes, and B
   * counts each byte once for every position from it to the end, plus one
   * for every byte.
   */
  lemma {:induction false} ClosedForm(s: seq<byte>)
    ensures SumA(s) == 1 + ByteSum(s)
    ensures SumB(s) == |s| + WeightedSum(s)
    decreases |s|
  {
    if s != [] {
      var s' := s[..|s| - 1];
      ClosedForm(s');
      WeightedSumSnoc(s', s[|s| - 1]);
      assert s' + [s[|s| - 1]] == s;
    }
  }

  /** The plain sum of the bytes of `s`. */
  function ByteSum(s: seq<byte>): nat
    decreases |s|
  {
    if s == [] then 0 else ByteSum(s[..|s| - 1]) + s[|s| - 1] as nat
  }

  /** The sum over positions `i` of `(|s| - i) * s[i]`: byte `i` weighted by how many prefixes end at or after it. */
  function WeightedSum(s: seq<byte>): nat
    decreases |s|
  {
    if s == [] then 0 else WeightedSum(s[1..]) + |s| * s[0] as nat
  }

  /** Appending one byte adds the running sum once more, plus the new byte. */
  lemma {:induction false} WeightedSumSnoc(s: seq<byte>, u: byte)
    ensures WeightedSum(s + [u]) == WeightedSum(s) + ByteSum(s) + u as nat
    decreases |s|
  {
    var t := s + [u];
    if s == [] {
      assert t[1..] == [];
    } else {
      assert t[1..] == s[1..] + [u];
      WeightedSumSnoc(s[1..], u);
      ByteSumCons(s);
      assert |t| * s[0] as nat == |s| * s[0] as nat + s[0] as nat;
    }
  }

  /** `ByteSum` may be taken from the front as well as from the back. */
  lemma {:induction false} ByteSumCons(s: seq<byte>)
    requires s != []
    ensures ByteSum(s) == s[0] as nat + ByteSum(s[1..])
    decreases |s|
  {
    if |s| > 1 {
      var s' := s[..|s| - 1];
      ByteSumCons(s');
      assert s'[1..] == s[1..][..|s[1..]| - 1];
    }
  }
}
