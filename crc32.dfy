/**
 * The CRC-32 that guards every PNG chunk (section 5.5 of the PNG
 * Specification, second edition, ISO/IEC 15948): the reflected CRC with
 * polynomial 0xEDB88320, register preset to all ones, result complemented.
 *
 * The reference definition here shifts one bit at a time, as the standard
 * describes it.  The PNG writer instead uses a sixteen-entry table and
 * consumes four bits per lookup (two lookups per byte); the lemmas of this
 * module show that the two agree on every register value and every byte.
 */
module Crc32 {
  import opened Bytes

  /** The reflected generator polynomial of CRC-32. */
  const Polynomial: bv32 := 0xEDB8_8320

  /** The register value a CRC computation starts from (`~0U`). */
  const Preset: bv32 := 0xFFFF_FFFF

  /**
   * One step of the bit-at-a-time register update: shift right by one and,
   * when the bit shifted out was set, xor in the polynomial (the mask
   * `0 - (c & 1)` is all ones exactly then).
   */
  function BitStep(c: bv32): bv32 {
    (c >> 1) ^ ((0 - (c & 1)) & Polynomial)
  }

  /** Four bit steps: what one lookup of the nibble table stands for. */
  function BitSteps4(c: bv32): bv32 {
    BitStep(BitStep(BitStep(BitStep(c))))
  }

  /** Reference update of the register by one byte: xor it in, shift out eight bits. */
  function ByteStep(c: bv32, u: byte): bv32 {
    BitSteps4(BitSteps4(c ^ u as bv32))
  }

  /** The register after feeding the bytes of `s`, in order, starting from `c`. */
  function Register(c: bv32, s: seq<byte>): bv32
    decreases |s|
  {
    if s == [] then c else Register(ByteStep(c, s[0]), s[1..])
  }

  /** The CRC of a byte string as PNG stores it: preset register, complemented result. */
  function Crc(s: seq<byte>): bv32 {
    !Register(Preset, s)
  }

  /**
   * The sixteen-entry table of the writer (FileUtils.cpp, `t[]`): entry `k`
   * is four bit steps applied to `k`.
   */
  function NibbleTable(k: bv32): (r: bv32)
    requires k < 16
    ensures r == BitSteps4(k)
  {
    if k == 0 then 0x0000_0000 else if k == 1 then 0x1db7_1064
    else if k == 2 then 0x3b6e_20c8 else if k == 3 then 0x26d9_30ac
    else if k == 4 then 0x76dc_4190 else if k == 5 then 0x6b6b_51f4
    else if k == 6 then 0x4db2_6158 else if k == 7 then 0x5005_713c
    else if k == 8 then 0xedb8_8320 else if k == 9 then 0xf00f_9344
    else if k == 10 then 0xd6d6_a3e8 else if k == 11 then 0xcb61_b38c
    else if k == 12 then 0x9b64_c2b0 else if k == 13 then 0x86d3_d2d4
    else if k == 14 then 0xa00a_e278 else 0xbdbd_f21c
  }

  /**
   * One table lookup of the writer, `c = (c >> 4) ^ t[c & 15]`: it does the
   * work of four bit steps, for every register value, since the low nibble
   * selects the entry for it and the high bits only shift.
   */
  function NibbleStep(c: bv32): (r: bv32)
    ensures r == BitSteps4(c)
  {
    (c >> 4) ^ NibbleTable(c & 15)
  }

  /**
   * The register update of the writer's byte macro, `c ^= u` followed by two
   * nibble steps: the reference update by one byte.
   */
  function TableByteStep(c: bv32, u: byte): (r: bv32)
    ensures r == ByteStep(c, u)
  {
    NibbleStep(NibbleStep(c ^ u as bv32))
  }

  /** Feeding `s` and then `t` is feeding `s + t`. */
  lemma {:induction false} RegisterAppend(c: bv32, s: seq<byte>, t: seq<byte>)
    ensures Register(Register(c, s), t) == Register(c, s + t)
    decreases |s|
  {
    if s == [] {
      assert s + t == t;
    } else {
      RegisterAppend(ByteStep(c, s[0]), s[1..], t);
      assert (s + t)[0] == s[0] && (s + t)[1..] == s[1..] + t;
    }
  }

  /** Feeding one byte is one byte step. */
  lemma RegisterOne(c: bv32, u: byte)
    ensures Register(c, [u]) == ByteStep(c, u)
  {
    assert [u][1..] == [];
  }

  /**
   * The check value of the IEND chunk, which every PNG file ends with:
   * the CRC of the four bytes "IEND" is AE 42 60 82.
   */
  lemma IendCrc()
    ensures Crc([0x49, 0x45, 0x4E, 0x44]) == 0xAE42_6082
  {
    var s: seq<byte> := [0x49, 0x45, 0x4E, 0x44];
    assert s[1..] == [0x45, 0x4E, 0x44] && s[2..] == [0x4E, 0x44] && s[3..] == [0x44] && s[4..] == [];
    assert ByteStep(Preset, 0x49) == 0x22fd_e946;
    assert ByteStep(0x22fd_e946, 0x45) == 0x992b_ac53;
    assert ByteStep(0x992b_ac53, 0x4E) == 0x639f_4775;
    assert ByteStep(0x639f_4775, 0x44) == 0x51bd_9f7d;
    assert Register(0x639f_4775, s[3..]) == 0x51bd_9f7d;
    assert Register(0x992b_ac53, s[2..]) == 0x51bd_9f7d;
    assert Register(0x22fd_e946, s[1..]) == 0x51bd_9f7d;
    assert Register(Preset, s) == 0x51bd_9f7d;
  }
}
