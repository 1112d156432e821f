/**
 * The minimal PNG writer `svpng` (InfiniTAM/ORUtils/FileUtils.cpp).
 *
 * `Encode` is the file the writer is meant to produce, written down from
 * the standards it follows: the PNG signature and the IHDR, IDAT and IEND
 * chunks (sections 5.2, 5.3 and 11.2 of the PNG Specification, second
 * edition), each chunk's length counting its data and its CRC covering its
 * type and data; inside IDAT a zlib stream (section 2.2 of RFC 1950) whose
 * deflate data is one stored block per image row (section 3.2.4 of
 * RFC 1951), each row prefixed with filter type 0, and whose Adler-32 covers
 * those filtered rows.  The CRC and the checksum come from the reference
 * definitions in `Crc32` and `Adler32`.
 *
 * `Svpng` is the writer itself: it appends bytes one macro at a time,
 * keeping the CRC register with the nibble table and the Adler sums reduced
 * at every step, walks the image with a pointer, and computes the IDAT
 * length with 32-bit unsigned arithmetic.  Its postcondition is that it
 * produces exactly `Encode`.
 */
module Png {
  import opened Bytes
  import opened Crc32
  import Adler32
  import opened Grid

  /** The eight bytes every PNG file starts with: 89 'P' 'N' 'G' CR LF SUB LF. */
  const Signature: seq<byte> := [0x89, 0x50, 0x4E, 0x47, 0x0D, 0x0A, 0x1A, 0x0A]

  /** Chunk type codes. */
  const IhdrType: seq<byte> := [0x49, 0x48, 0x44, 0x52]
  const IdatType: seq<byte> := [0x49, 0x44, 0x41, 0x54]
  const IendType: seq<byte> := [0x49, 0x45, 0x4E, 0x44]

  /** zlib CMF and FLG: deflate with a 32K window, no preset dictionary, check bits making 0x7801 a multiple of 31. */
  const ZlibHeader: seq<byte> := [0x78, 0x01]

  /** Bytes per row plus one filter byte: the writer's `p`. */
  function Pitch(w: nat, alpha: bool): nat {
    w * (if alpha then 4 else 3) + 1
  }

  /**
   * What the writer needs of its caller: width and height fit its
   * `unsigned` parameters, the pitch does not wrap around, and the image
   * holds exactly `h` rows of `p - 1` bytes.
   */
  predicate WellSized(w: nat, h: nat, img: seq<byte>, alpha: bool) {
    w < Two32 && h < Two32 && Pitch(w, alpha) < Two32 && |img| == h * (Pitch(w, alpha) - 1)
  }

  /** A chunk: its data length, its type, its data, and the CRC of type and data. */
  function Chunk(kind: seq<byte>, data: seq<byte>): seq<byte> {
    U32Be(|data| % Two32) + kind + data + U32Be(Crc(kind + data) as nat)
  }

  /** IHDR data: width, height, bit depth 8, colour type 6 (RGBA) or 2 (RGB), deflate, no filter, no interlace. */
  function ImageHeader(w: nat, h: nat, alpha: bool): (r: seq<byte>)
    requires w < Two32 && h < Two32
    ensures |r| == 13
  {
    U32Be(w) + U32Be(h) + [8, if alpha then 6 else 2, 0, 0, 0]
  }

  /** The image cut into its `h` rows of `n` bytes, top to bottom. */
  function Rows(img: seq<byte>, n: nat, h: nat): (r: seq<seq<byte>>)
    requires |img| == h * n
    ensures |r| == h
    ensures forall y | 0 <= y < h :: |r[y]| == n
    decreases h
  {
    if h == 0 then []
    else
      assert |img| == (h - 1) * n + n;
      [img[..n]] + Rows(img[n..], n, h - 1)
  }

  /** The rows laid end to end. */
  function Flatten(rows: seq<seq<byte>>): seq<byte>
    decreases |rows|
  {
    if rows == [] then [] else rows[0] + Flatten(rows[1..])
  }

  /** The rows, each preceded by filter type 0: the bytes the Adler-32 covers. */
  function Filtered(rows: seq<seq<byte>>): seq<byte>
    decreases |rows|
  {
    if rows == [] then [] else Filtered(rows[..|rows| - 1]) + [0] + rows[|rows| - 1]
  }

  /**
   * A stored deflate block holding one filtered row of pitch `p`: header
   * byte (BFINAL in bit 0, BTYPE 00), then LEN and NLEN, each as 16 bits
   * little-endian.  The writer puts `p` in LEN and `~p` in NLEN, keeping
   * the low 16 bits of each.
   */
  function StoredBlock(final: bool, p: nat, data: seq<byte>): seq<byte> {
    [if final then 1 else 0] + U16Le(p % 65536) + U16Le(65535 - p % 65536) + data
  }

  /** One stored block per row; the block of row `h - 1`, the last of the image, is final. */
  function Blocks(rows: seq<seq<byte>>, h: nat, p: nat): seq<byte>
    decreases |rows|
  {
    if rows == [] then []
    else Blocks(rows[..|rows| - 1], h, p) + StoredBlock(|rows| == h, p, [0] + rows[|rows| - 1])
  }

  /** The IDAT data: zlib header, one stored block per row, Adler-32 of the filtered rows. */
  function ZlibStream(rows: seq<seq<byte>>, p: nat): seq<byte> {
    ZlibHeader + Blocks(rows, |rows|, p) + U32Be(Adler32.Checksum(Filtered(rows)))
  }

  /** The PNG file for a `w` by `h` image of 8-bit RGB or RGBA pixels, rows top to bottom. */
  function Encode(w: nat, h: nat, img: seq<byte>, alpha: bool): seq<byte>
    requires WellSized(w, h, img, alpha)
  {
    var p := Pitch(w, alpha);
    File(w, h, alpha, ZlibStream(Rows(img, p - 1, h), p))
  }

  /** The signature, then the IHDR, IDAT and IEND chunks, the IDAT holding `stream`. */
  function File(w: nat, h: nat, alpha: bool, stream: seq<byte>): seq<byte>
    requires w < Two32 && h < Two32
  {
    Signature
    + Chunk(IhdrType, ImageHeader(w, h, alpha))
    + Chunk(IdatType, stream)
    + Chunk(IendType, [])
  }

  /**
   * The writer's `SVPNG_U8AC`, and every macro built on `SVPNG_U8C`:
   * output the bytes of `s` one at a time, updating the CRC register with
   * two nibble-table lookups per byte.  The register ends as the reference
   * register fed with `s`.
   */
  method PutCrc(out: seq<byte>, c: bv32, s: seq<byte>) returns (out': seq<byte>, c': bv32)
    ensures out' == out + s
    ensures c' == Register(c, s)
  {
    out', c' := out, c;
    var i := 0;
    while i < |s|
      invariant 0 <= i <= |s|
      invariant out' == out + s[..i]
      invariant c' == Register(c, s[..i])
    {
      RegisterOne(c', s[i]);
      RegisterAppend(c, s[..i], [s[i]]);
      assert s[..i + 1] == s[..i] + [s[i]];
      out', c' := out' + [s[i]], TableByteStep(c', s[i]);
      i := i + 1;
    }
    assert s[..i] == s;
  }

  /**
   * A chunk being written: `out` is `base` followed by the chunk type and
   * the `data` written so far, and `c` is the register after type and data.
   */
  ghost predicate Open(out: seq<byte>, c: bv32, base: seq<byte>, kind: seq<byte>, data: seq<byte>) {
    out == base + kind + data && c == Register(Preset, kind + data)
  }

  /** Writing `s` through the CRC keeps a chunk open, its data now extended by `s`. */
  lemma Extend(out: seq<byte>, c: bv32, base: seq<byte>, kind: seq<byte>, data: seq<byte>, s: seq<byte>)
    requires Open(out, c, base, kind, data)
    ensures Open(out + s, Register(c, s), base, kind, data + s)
  {
    RegisterAppend(Preset, kind + data, s);
    AppendAssoc(kind, data, s);
    AppendAssoc(base + kind, data, s);
  }

  /**
   * `SVPNG_END()` closes an open chunk whose length field announced the
   * length of its data: what has been written is then that chunk.
   */
  lemma Close(start: seq<byte>, out: seq<byte>, c: bv32, kind: seq<byte>, data: seq<byte>, length: nat)
    requires length == |data| % Two32
    requires Open(out, c, start + U32Be(length), kind, data)
    ensures out + U32Be((!c) as nat) == start + Chunk(kind, data)
  {
    var len, crc := U32Be(length), U32Be((!c) as nat);
    AppendAssoc(start, len, kind);
    AppendAssoc(start, len + kind, data);
    AppendAssoc(start, len + kind + data, crc);
  }

  /**
   * `SVPNG_BEGIN(s, l)`: the length field, then the chunk type through a
   * register preset to all ones.
   */
  method Begin(out: seq<byte>, kind: seq<byte>, len: nat) returns (out': seq<byte>, c': bv32)
    requires len < Two32
    ensures Open(out', c', out + U32Be(len), kind, [])
  {
    out', c' := PutCrc(out + U32Be(len), Preset, kind);
    assert kind + [] == kind;
  }

  /** The IHDR chunk as the writer emits it: width, height, then the five one-byte fields. */
  method PutHeader(out: seq<byte>, w: nat, h: nat, alpha: bool) returns (out': seq<byte>)
    requires w < Two32 && h < Two32
    ensures out' == out + Chunk(IhdrType, ImageHeader(w, h, alpha))
  {
    var c;
    out', c := Begin(out, IhdrType, 13);
    ghost var base, data := out + U32Be(13), [];
    var fields: seq<byte> := [8, if alpha then 6 else 2, 0, 0, 0];
    Extend(out', c, base, IhdrType, data, U32Be(w));
    out', c := PutCrc(out', c, U32Be(w));
    data := data + U32Be(w);
    Extend(out', c, base, IhdrType, data, U32Be(h));
    out', c := PutCrc(out', c, U32Be(h));
    data := data + U32Be(h);
    Extend(out', c, base, IhdrType, data, fields);
    out', c := PutCrc(out', c, fields);
    data := data + fields;
    assert data == ImageHeader(w, h, alpha);
    Close(out, out', c, IhdrType, data, 13);
    out' := out' + U32Be((!c) as nat);
  }

  /**
   * The IDAT data as the writer emits it: the zlib header, the row blocks,
   * and the Adler-32 word `(b << 16) | a`, all through the CRC register.
   */
  method PutStream(out: seq<byte>, c: bv32, img: seq<byte>, n: nat, h: nat, ghost rows: seq<seq<byte>>)
    returns (out': seq<byte>, c': bv32)
    requires |rows| == h && (forall y | 0 <= y < h :: |rows[y]| == n) && img == Flatten(rows)
    ensures out' == out + ZlibStream(rows, n + 1)
    ensures c' == Register(c, ZlibStream(rows, n + 1))
  {
    var a, b;
    out', c' := PutCrc(out, c, ZlibHeader);
    ghost var blocks := Blocks(rows, h, n + 1);
    RegisterAppend(c, ZlibHeader, blocks);
    AppendAssoc(out, ZlibHeader, blocks);
    out', c', a, b := PutRows(out', c', img, n, h, rows);
    var check := U32Be(Adler32.Word(a, b));
    assert Adler32.Word(a, b) == Adler32.Checksum(Filtered(rows));
    RegisterAppend(c, ZlibHeader + blocks, check);
    AppendAssoc(out, ZlibHeader + blocks, check);
    out', c' := PutCrc(out', c', check);
  }

  /**
   * The IDAT chunk: its length field, computed by the writer in 32-bit
   * unsigned arithmetic as `2 + h * (5 + p) + 4`, then the zlib stream.
   */
  method PutImageData(out: seq<byte>, img: seq<byte>, n: nat, h: nat, ghost rows: seq<seq<byte>>)
    returns (out': seq<byte>)
    requires h < Two32 && n + 1 < Two32
    requires |rows| == h && (forall y | 0 <= y < h :: |rows[y]| == n) && img == Flatten(rows)
    ensures out' == out + Chunk(IdatType, ZlibStream(rows, n + 1))
  {
    var p := n + 1;
    var length := (2 + h * (5 + p) + 4) % Two32;
    var c;
    out', c := Begin(out, IdatType, length);
    ghost var stream := ZlibStream(rows, p);
    BlocksLength(rows, h, n);
    TimesIsProduct(h, 5 + p);
    assert |stream| == 2 + h * (5 + p) + 4;
    Extend(out', c, out + U32Be(length), IdatType, [], stream);
    assert [] + stream == stream;
    out', c := PutStream(out', c, img, n, h, rows);
    Close(out, out', c, IdatType, stream, length);
    out' := out' + U32Be((!c) as nat);
  }

  /** The IEND chunk: no data, so only the type is covered by the CRC. */
  method PutEnd(out: seq<byte>) returns (out': seq<byte>)
    ensures out' == out + Chunk(IendType, [])
  {
    var c;
    out', c := Begin(out, IendType, 0);
    Close(out, out', c, IendType, [], 0);
    out' := out' + U32Be((!c) as nat);
  }

  /**
   * The writer `svpng(f, w, h, img, alpha)`, with the file as the returned
   * byte string: the signature, then the three chunks.
   */
  method Svpng(w: nat, h: nat, img: seq<byte>, alpha: bool) returns (out: seq<byte>)
    requires WellSized(w, h, img, alpha)
    ensures out == Encode(w, h, img, alpha)
  {
    var p := Pitch(w, alpha);
    ghost var rows := Rows(img, p - 1, h);
    FlattenRows(img, p - 1, h);
    out := Signature;
    out := PutHeader(out, w, h, alpha);
    out := PutImageData(out, img, p - 1, h, rows);
    out := PutEnd(out);
  }

  /**
   * The row loop of the writer: one stored block per row, the CRC register
   * running over all of them, and the Adler registers, started at `a = 1`,
   * `b = 0`, running over the filter bytes and pixels only.  `rest` is the
   * writer's advancing `img` pointer; `rows` is the image cut into rows.
   */
  method PutRows(out: seq<byte>, c: bv32, img: seq<byte>, n: nat, h: nat, ghost rows: seq<seq<byte>>)
    returns (out': seq<byte>, c': bv32, a: nat, b: nat)
    requires |rows| == h && (forall y | 0 <= y < h :: |rows[y]| == n) && img == Flatten(rows)
    ensures out' == out + Blocks(rows, h, n + 1)
    ensures c' == Register(c, Blocks(rows, h, n + 1))
    ensures a == Adler32.SumA(Filtered(rows)) % Adler32.Modulus
    ensures b == Adler32.SumB(Filtered(rows)) % Adler32.Modulus
  {
    out', c' := out, c;
    a, b := 1, 0;
    var rest := img;
    ghost var blocks: seq<byte> := [];
    ghost var lines: seq<byte> := [];
    var y := 0;
    while y < h
      invariant y <= h && rest == Flatten(rows[y..])
      invariant blocks == Blocks(rows[..y], h, n + 1) && lines == Filtered(rows[..y])
      invariant out' == out + blocks && c' == Register(c, blocks)
      invariant a == Adler32.SumA(lines) % Adler32.Modulus
      invariant b == Adler32.SumB(lines) % Adler32.Modulus
    {
      ghost var row := rows[y];
      FlattenStep(rows, y, n);
      ghost var block := StoredBlock(y == h - 1, n + 1, [0] + row);
      out', c', a, b, rest := PutRow(out', c', a, b, rest, n, y == h - 1, lines);
      RegisterAppend(c, blocks, block);
      AppendAssoc(out, blocks, block);
      RowsSnoc(rows, y, h, n + 1);
      blocks, lines := blocks + block, lines + [0] + row;
      y := y + 1;
    }
    assert rows[..y] == rows;
  }

  /**
   * One pass of the row loop: block header (final flag, LEN, NLEN), then
   * the filter byte and the `p - 1` pixel bytes taken from the pointer, the
   * last two through the Adler registers as well as the CRC.
   */
  method PutRow(out: seq<byte>, c: bv32, a: nat, b: nat, rest: seq<byte>, n: nat, last: bool, ghost lines: seq<byte>)
    returns (out': seq<byte>, c': bv32, a': nat, b': nat, rest': seq<byte>)
    requires n <= |rest|
    requires a == Adler32.SumA(lines) % Adler32.Modulus
    requires b == Adler32.SumB(lines) % Adler32.Modulus
    ensures out' == out + StoredBlock(last, n + 1, [0] + rest[..n])
    ensures c' == Register(c, StoredBlock(last, n + 1, [0] + rest[..n]))
    ensures a' == Adler32.SumA(lines + [0] + rest[..n]) % Adler32.Modulus
    ensures b' == Adler32.SumB(lines + [0] + rest[..n]) % Adler32.Modulus
    ensures rest' == rest[n..]
  {
    var p := n + 1;
    var final: seq<byte> := [if last then 1 else 0];
    var len, nlen := U16Le(p % 65536), U16Le(65535 - p % 65536);
    var header := final + len + nlen;
    out', c' := PutCrc(out, c, header);
    out', c', a', b' := PutAdler(out', c', a, b, 0, lines);
    out', c', a', b', rest' := PutPixels(out', c', a', b', rest, n, lines + [0]);
    ghost var row := rest[..n];
    RegisterAppend(c, header, [0]);
    RegisterAppend(c, header + [0], row);
    AppendAssoc(header, [0], row);
    AppendAssoc(out, header, [0]);
    AppendAssoc(out, header + [0], row);
  }

  /**
   * The pixel loop of a row, `for (x = 0; x < p - 1; x++, img++)
   * SVPNG_U8ADLER(*img)`: the next `n` bytes of the image, out through the
   * CRC and into the Adler sums, advancing the pointer past them.
   */
  method PutPixels(out: seq<byte>, c: bv32, a: nat, b: nat, rest: seq<byte>, n: nat, ghost summed: seq<byte>)
    returns (out': seq<byte>, c': bv32, a': nat, b': nat, rest': seq<byte>)
    requires n <= |rest|
    requires a == Adler32.SumA(summed) % Adler32.Modulus
    requires b == Adler32.SumB(summed) % Adler32.Modulus
    ensures out' == out + rest[..n] && c' == Register(c, rest[..n])
    ensures a' == Adler32.SumA(summed + rest[..n]) % Adler32.Modulus
    ensures b' == Adler32.SumB(summed + rest[..n]) % Adler32.Modulus
    ensures rest' == rest[n..]
  {
    out', c', a', b', rest' := out, c, a, b, rest;
    ghost var pixels: seq<byte> := [];
    assert summed + pixels == summed && out + pixels == out;
    var x := 0;
    while x < n
      invariant x <= n && rest' == rest[x..] && pixels == rest[..x]
      invariant out' == out + pixels && c' == Register(c, pixels)
      invariant a' == Adler32.SumA(summed + pixels) % Adler32.Modulus
      invariant b' == Adler32.SumB(summed + pixels) % Adler32.Modulus
    {
      var u := rest'[0];
      assert rest[..x + 1] == pixels + [u] && rest'[1..] == rest[x + 1..];
      AppendAssoc(summed, pixels, [u]);
      AppendAssoc(out, pixels, [u]);
      RegisterAppend(c, pixels, [u]);
      out', c', a', b' := PutAdler(out', c', a', b', u, summed + pixels);
      pixels := pixels + [u];
      rest' := rest'[1..];
      x := x + 1;
    }
  }

  /**
   * The writer's `SVPNG_U8ADLER`: one byte out through the CRC register and
   * into both Adler sums, which stay reduced modulo 65521.
   */
  method PutAdler(out: seq<byte>, c: bv32, a: nat, b: nat, u: byte, ghost summed: seq<byte>)
    returns (out': seq<byte>, c': bv32, a': nat, b': nat)
    requires a == Adler32.SumA(summed) % Adler32.Modulus
    requires b == Adler32.SumB(summed) % Adler32.Modulus
    ensures out' == out + [u] && c' == Register(c, [u])
    ensures a' == Adler32.SumA(summed + [u]) % Adler32.Modulus
    ensures b' == Adler32.SumB(summed + [u]) % Adler32.Modulus
  {
    out', c' := PutCrc(out, c, [u]);
    Adler32.RunningUpdate(summed, u, a, b);
    a' := (a + u as nat) % Adler32.Modulus;
    b' := (b + a') % Adler32.Modulus;
  }

  /** The rows from `y` on, laid end to end, start with row `y` and go on with the rows after it. */
  lemma FlattenStep(rows: seq<seq<byte>>, y: nat, n: nat)
    requires y < |rows| && |rows[y]| == n
    ensures n <= |Flatten(rows[y..])|
    ensures Flatten(rows[y..])[..n] == rows[y] && Flatten(rows[y..])[n..] == Flatten(rows[y + 1..])
  {
    assert rows[y..][0] == rows[y] && rows[y..][1..] == rows[y + 1..];
  }

  /** One more row adds its stored block and its filtered bytes at the end. */
  lemma RowsSnoc(rows: seq<seq<byte>>, y: nat, h: nat, p: nat)
    requires y < |rows|
    ensures Blocks(rows[..y + 1], h, p) == Blocks(rows[..y], h, p) + StoredBlock(y == h - 1, p, [0] + rows[y])
    ensures Filtered(rows[..y + 1]) == Filtered(rows[..y]) + [0] + rows[y]
  {
    assert rows[..y + 1][..y] == rows[..y];
  }

  /** Cutting the image into rows loses nothing: laid end to end they are the image again. */
  lemma {:induction false} FlattenRows(img: seq<byte>, n: nat, h: nat)
    requires |img| == h * n
    ensures Flatten(Rows(img, n, h)) == img
    decreases h
  {
    if h > 0 {
      assert |img| == (h - 1) * n + n;
      FlattenRows(img[n..], n, h - 1);
      assert img[..n] + img[n..] == img;
    }
  }

  /** Each stored block is the row plus six bytes, so `h` rows of `n` bytes take `h * (n + 6)` bytes. */
  lemma {:induction false} BlocksLength(rows: seq<seq<byte>>, h: nat, n: nat)
    requires forall y | 0 <= y < |rows| :: |rows[y]| == n
    ensures |Blocks(rows, h, n + 1)| == Times(|rows|, 5 + (n + 1))
    decreases |rows|
  {
    if rows != [] {
      var front := rows[..|rows| - 1];
      assert forall y | 0 <= y < |front| :: front[y] == rows[y];
      BlocksLength(front, h, n);
      LastBlockLength(rows, h, n);
    }
  }

  /** The block of the last row adds the row and six bytes. */
  lemma LastBlockLength(rows: seq<seq<byte>>, h: nat, n: nat)
    requires rows != [] && |rows[|rows| - 1]| == n
    ensures |Blocks(rows, h, n + 1)| == |Blocks(rows[..|rows| - 1], h, n + 1)| + (5 + (n + 1))
  {
    var block := StoredBlock(|rows| == h, n + 1, [0] + rows[|rows| - 1]);
    assert |block| == 5 + (n + 1);
  }

  /**
   * The IDAT length the writer announces, `2 + h * (5 + p) + 4`, is the
   * exact length of the zlib stream it then writes.
   */
  lemma IdatLength(w: nat, h: nat, img: seq<byte>, alpha: bool)
    requires WellSized(w, h, img, alpha)
    ensures |ZlibStream(Rows(img, Pitch(w, alpha) - 1, h), Pitch(w, alpha))| == 2 + h * (5 + Pitch(w, alpha)) + 4
  {
    BlocksLength(Rows(img, Pitch(w, alpha) - 1, h), h, Pitch(w, alpha) - 1);
    TimesIsProduct(h, 5 + Pitch(w, alpha));
  }

  /** The IEND chunk is always the same twelve bytes. */
  lemma EndChunk()
    ensures Chunk(IendType, []) == [0, 0, 0, 0] + IendType + [0xAE, 0x42, 0x60, 0x82]
  {
    IendCrc();
    assert IendType + [] == IendType;
    assert U32Be(0) == [0, 0, 0, 0];
    assert 0xAE42_6082 / 256 == 0xAE_4260 && 0xAE_4260 / 256 == 0xAE42 && 0xAE42 / 256 == 0xAE;
    assert U32Be(0xAE42_6082) == [0xAE, 0x42, 0x60, 0x82];
    var crc := Crc(IendType + []) as nat;
    assert crc == 0xAE42_6082;
    assert U32Be(crc) == U32Be(0xAE42_6082);
  }

  /**
   * The fixed frame of every file of the writer: the signature, an IHDR of
   * length 13 holding the width and height big-endian, bit depth 8, colour
   * type 6 with alpha and 2 without, three zero bytes; and the IEND chunk
   * last.
   */
  predicate Framed(e: seq<byte>, w: nat, h: nat, alpha: bool) {
    |e| >= 45
    && e[..8] == [0x89, 0x50, 0x4E, 0x47, 0x0D, 0x0A, 0x1A, 0x0A]
    && e[8..16] == [0, 0, 0, 13, 0x49, 0x48, 0x44, 0x52]
    && BigEndian(e[16..20]) == w && BigEndian(e[20..24]) == h
    && e[24..29] == [8, if alpha then 6 else 2, 0, 0, 0]
    && e[|e| - 12..] == [0, 0, 0, 0] + IendType + [0xAE, 0x42, 0x60, 0x82]
  }

  /** Every file the writer produces has the fixed frame. */
  lemma EncodeLayout(w: nat, h: nat, img: seq<byte>, alpha: bool)
    requires WellSized(w, h, img, alpha)
    ensures Framed(Encode(w, h, img, alpha), w, h, alpha)
  {
    var p := Pitch(w, alpha);
    var stream := ZlibStream(Rows(img, p - 1, h), p);
    assert Encode(w, h, img, alpha) == File(w, h, alpha, stream);
    Layout(w, h, alpha, Chunk(IdatType, stream));
  }

  /** `EncodeLayout` for any middle chunk. */
  lemma Layout(w: nat, h: nat, alpha: bool, middle: seq<byte>)
    requires w < Two32 && h < Two32
    ensures Framed(Signature + Chunk(IhdrType, ImageHeader(w, h, alpha)) + middle + Chunk(IendType, []), w, h, alpha)
  {
    var header := ImageHeader(w, h, alpha);
    var ihdr := Chunk(IhdrType, header);
    EndChunk();
    assert U32Be(13) == [0, 0, 0, 13];
    HeaderLayout(header, IhdrType, U32Be(13), U32Be(Crc(IhdrType + header) as nat));
    FileLayout(Signature, ihdr, middle, Chunk(IendType, []));
    assert header[..4] == U32Be(w) && header[4..8] == U32Be(h) && header[8..] == [8, if alpha then 6 else 2, 0, 0, 0];
  }

  /** Where the parts of a chunk with a 13-byte data field sit. */
  lemma HeaderLayout(data: seq<byte>, kind: seq<byte>, len: seq<byte>, crc: seq<byte>)
    requires |data| == 13 && |kind| == 4 && |len| == 4 && |crc| == 4
    ensures var c := len + kind + data + crc;
      c[..4] == len && c[4..8] == kind && c[8..12] == data[..4] && c[12..16] == data[4..8] && c[16..21] == data[8..]
  {
    var c := len + kind + data + crc;
    assert c[..4] == len && c[4..8] == kind;
    assert c[8..21] == data;
    assert c[8..12] == c[8..21][..4] && c[12..16] == c[8..21][4..8] && c[16..21] == c[8..21][8..];
  }

  /** Where the signature, the first chunk and the last chunk of a file sit. */
  lemma FileLayout(sig: seq<byte>, first: seq<byte>, middle: seq<byte>, last: seq<byte>)
    requires |sig| == 8 && |first| == 25 && |last| == 12
    ensures var e := sig + first + middle + last;
      e[..8] == sig && e[8..16] == first[..8] && e[16..20] == first[8..12] && e[20..24] == first[12..16]
      && e[24..29] == first[16..21] && e[|e| - 12..] == last
  {
  }
}
