/**
 * Bytes and the fixed-width integer encodings the image writers emit.
 */
module Bytes {

  /** An octet, the `unsigned char` of the source. */
  newtype byte = x: int | 0 <= x < 256

  /** A 16-bit sample as its bit pattern: `unsigned short`, and `short` in two's complement. */
  newtype u16 = x: int | 0 <= x < 0x1_0000

  const Two32: nat := 0x1_0000_0000

  /** The value of a big-endian byte string. */
  function BigEndian(s: seq<byte>): nat
    decreases |s|
  {
    if s == [] then 0 else BigEndian(s[..|s| - 1]) * 256 + s[|s| - 1] as nat
  }

  /**
   * A 32-bit unsigned value as four bytes, most significant first:
   * `u >> 24`, `(u >> 16) & 255`, `(u >> 8) & 255`, `u & 255`.
   */
  function U32Be(v: nat): (r: seq<byte>)
    requires v < Two32
    ensures |r| == 4 && BigEndian(r) == v
  {
    var q1 := v / 256;
    var q2 := q1 / 256;
    var q3 := q2 / 256;
    var r: seq<byte> := [q3 as byte, (q2 % 256) as byte, (q1 % 256) as byte, (v % 256) as byte];
    assert r[..3][..2][..1][..0] == [];
    assert r[..3][..2] == r[..2] && r[..3][..2][..1] == r[..1] && r[..4] == r;
    assert BigEndian(r[..1]) == q3;
    assert BigEndian(r[..2]) == q2;
    assert BigEndian(r[..3]) == q1;
    r
  }

  /** A 16-bit unsigned value as two bytes, least significant first: `u & 255`, `(u >> 8) & 255`. */
  function U16Le(v: nat): (r: seq<byte>)
    requires v < 65536
    ensures |r| == 2 && r[0] as int + 256 * r[1] as int == v
  {
    [(v % 256) as byte, (v / 256) as byte]
  }

  /** Concatenation is associative; stated once so that proofs can cite it instead of re-deriving it. */
  lemma AppendAssoc<T>(a: seq<T>, b: seq<T>, c: seq<T>)
    ensures a + b + c == a + (b + c)
  {
  }

  /**
   * An array of 16-bit samples as it lies in memory, and so as `fwrite`
   * writes it, on a little-endian host: each sample low byte first.
   */
  function LittleEndian16(vs: seq<u16>): (r: seq<byte>)
    ensures |r| == 2 * |vs|
    decreases |vs|
  {
    if vs == [] then [] else LittleEndian16(vs[..|vs| - 1]) + U16Le(vs[|vs| - 1] as nat)
  }

  /** Bytes read by `fread` into an array of 16-bit samples on a little-endian host. */
  function FromLittleEndian16(bs: seq<byte>): (r: seq<u16>)
    requires |bs| % 2 == 0
    ensures 2 * |r| == |bs|
    decreases |bs|
  {
    if bs == [] then []
    else FromLittleEndian16(bs[..|bs| - 2]) + [(bs[|bs| - 2] as int + 256 * bs[|bs| - 1] as int) as u16]
  }

  /** Samples written to memory read back unchanged. */
  lemma {:induction false} LittleEndian16RoundTrip(vs: seq<u16>)
    ensures FromLittleEndian16(LittleEndian16(vs)) == vs
    decreases |vs|
  {
    if vs != [] {
      var bs := LittleEndian16(vs);
      var front, last := vs[..|vs| - 1], vs[|vs| - 1];
      var pair := U16Le(last as nat);
      assert bs == LittleEndian16(front) + pair;
      assert bs[..|bs| - 2] == LittleEndian16(front);
      assert bs[|bs| - 2] == pair[0] && bs[|bs| - 1] == pair[1];
      LittleEndian16RoundTrip(front);
      assert FromLittleEndian16(bs) == front + [last];
      assert vs == front + [last];
    }
  }

  /** Bytes read into memory are written back unchanged. */
  lemma {:induction false} FromLittleEndian16RoundTrip(bs: seq<byte>)
    requires |bs| % 2 == 0
    ensures LittleEndian16(FromLittleEndian16(bs)) == bs
    decreases |bs|
  {
    if bs != [] {
      var vs := FromLittleEndian16(bs);
      var front, lo, hi := bs[..|bs| - 2], bs[|bs| - 2], bs[|bs| - 1];
      var last := vs[|vs| - 1];
      assert vs == FromLittleEndian16(front) + [last];
      assert last as int == lo as int + 256 * hi as int;
      assert U16Le(last as nat) == [lo, hi];
      FromLittleEndian16RoundTrip(front);
      assert LittleEndian16(vs) == front + [lo, hi];
      assert bs == front + [lo, hi];
    }
  }

  /** Sample `i` read into memory is bytes `2i` (low) and `2i + 1` (high). */
  lemma {:induction false} FromLittleEndian16At(bs: seq<byte>, i: nat)
    requires |bs| % 2 == 0 && 2 * i < |bs|
    ensures FromLittleEndian16(bs)[i] as int == bs[2 * i] as int + 256 * bs[2 * i + 1] as int
    decreases |bs|
  {
    if 2 * i < |bs| - 2 {
      var front := bs[..|bs| - 2];
      FromLittleEndian16At(front, i);
      assert FromLittleEndian16(bs)[i] == FromLittleEndian16(front)[i];
    }
  }
}
