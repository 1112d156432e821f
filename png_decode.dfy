/**
 * A reader for the PNG files of `Png.Encode`, written from the standards
 * alone: it checks the signature, parses the three chunks and checks their
 * CRCs, reads the IHDR fields, checks the zlib header and inflates the
 * stored blocks (section 3.2.4 of RFC 1951), checks the Adler-32, and
 * strips the filter byte of each row (only filter type 0 is accepted).
 * It reads exactly the chunk sequence IHDR, IDAT, IEND and nothing else.
 *
 * `EncodeDecode` is the round trip: every image the writer is given comes
 * back from its file, provided the file is a valid PNG at all (at least one
 * row, rows short enough for one stored block each, an IDAT length that
 * fits its 32-bit field).
 */
module PngDecode {
  import opened Bytes
  import opened Wrappers
  import opened Crc32
  import Adler32
  import opened Png
  import opened Grid

  /** What a PNG file holds: its size, whether it has an alpha channel, and its pixel bytes row by row. */
  datatype Image = Image(width: nat, height: nat, alpha: bool, pixels: seq<byte>)

  /** A parsed chunk: its type, its data, and the bytes after it. */
  datatype Parsed = Parsed(kind: seq<byte>, data: seq<byte>, rest: seq<byte>)

  /** Reads one chunk from the front of `s`; fails when `s` is too short or the CRC does not match. */
  function ParseChunk(s: seq<byte>): Option<Parsed> {
    if |s| < 12 then None
    else
      var len := BigEndian(s[..4]);
      if |s| < 12 + len then None
      else if BigEndian(s[8 + len..12 + len]) != Crc(s[4..8 + len]) as nat then None
      else Some(Parsed(s[4..8], s[8..8 + len], s[12 + len..]))
  }

  /** Prefixes the data of a successful inflate result. */
  function Prepend(d: seq<byte>, r: Option<(seq<byte>, seq<byte>)>): Option<(seq<byte>, seq<byte>)> {
    match r
    case None => None
    case Some((e, t)) => Some((d + e, t))
  }

  /**
   * Inflates a run of stored deflate blocks from the front of `s`, up to and
   * including the first final one: each block is a header byte (BFINAL in
   * bit 0, BTYPE 00 in bits 1 and 2, the other bits padding to the byte
   * boundary), LEN and NLEN as 16-bit little-endian values with NLEN the
   * one's complement of LEN, then LEN bytes of data.  Yields the data and
   * the bytes after the final block.
   */
  function Inflate(s: seq<byte>): Option<(seq<byte>, seq<byte>)>
    decreases |s|
  {
    if |s| < 5 || (s[0] / 2) % 4 != 0 then None
    else
      var len := s[1] as nat + 256 * s[2] as nat;
      var nlen := s[3] as nat + 256 * s[4] as nat;
      if len + nlen != 65535 || |s| < 5 + len then None
      else if s[0] % 2 == 1 then Some((s[5..5 + len], s[5 + len..]))
      else Prepend(s[5..5 + len], Inflate(s[5 + len..]))
  }

  /**
   * Decodes a zlib stream (section 2.2 of RFC 1950) whose deflate data is
   * stored blocks: CM 8, CINFO at most 7, FCHECK making CMF * 256 + FLG a
   * multiple of 31, no preset dictionary, and the Adler-32 of the inflated
   * data in the four bytes that end the stream.
   */
  function ZlibDecode(s: seq<byte>): Option<seq<byte>> {
    if |s| < 2 then None
    else
      var cmf, flg := s[0] as nat, s[1] as nat;
      if cmf % 16 != 8 || cmf / 16 > 7 || (cmf * 256 + flg) % 31 != 0 || (flg / 32) % 2 != 0 then None
      else match Inflate(s[2..])
        case None => None
        case Some((d, t)) => if |t| == 4 && BigEndian(t) == Adler32.Checksum(d) then Some(d) else None
  }

  /**
   * Cuts filtered scanlines into `h` rows of `n` bytes, each having been
   * preceded by filter type 0, the only one accepted here.
   */
  function Unfilter(data: seq<byte>, n: nat, h: nat): Option<seq<seq<byte>>>
    decreases h
  {
    if h == 0 then (if data == [] then Some([]) else None)
    else if |data| < n + 1 then None
    else
      var k := |data| - (n + 1);
      if data[k] != 0 then None
      else match Unfilter(data[..k], n, h - 1)
        case None => None
        case Some(rows) => Some(rows + [data[k + 1..]])
  }

  /** The IHDR fields: width, height and alpha, for bit depth 8, colour type 2 or 6, and methods 0. */
  function ParseHeader(d: seq<byte>): Option<(nat, nat, bool)> {
    if |d| != 13 || d[8] != 8 || (d[9] != 2 && d[9] != 6) || d[10..] != [0, 0, 0] then None
    else Some((BigEndian(d[..4]), BigEndian(d[4..8]), d[9] == 6))
  }

  /** The image in the pixel data of an IDAT chunk, given the IHDR fields. */
  function ParseImageData(w: nat, h: nat, alpha: bool, d: seq<byte>): Option<Image> {
    match ZlibDecode(d)
    case None => None
    case Some(filtered) =>
      match Unfilter(filtered, Pitch(w, alpha) - 1, h)
      case None => None
      case Some(rows) => Some(Image(w, h, alpha, Flatten(rows)))
  }

  /** Reads a PNG file laid out as signature, IHDR, IDAT, IEND. */
  function Decode(file: seq<byte>): Option<Image> {
    if |file| < 8 || file[..8] != Signature then None
    else match ParseChunk(file[8..])
      case None => None
      case Some(ihdr) =>
        match ParseChunk(ihdr.rest)
        case None => None
        case Some(idat) =>
          match ParseChunk(idat.rest)
          case None => None
          case Some(iend) =>
            if ihdr.kind != IhdrType || idat.kind != IdatType || iend.kind != IendType
              || iend.data != [] || iend.rest != []
            then None
            else match ParseHeader(ihdr.data)
              case None => None
              case Some((w, h, alpha)) => ParseImageData(w, h, alpha, idat.data)
  }

  /** A chunk reads back as its type and data, whatever follows it. */
  lemma ChunkRoundTrip(kind: seq<byte>, data: seq<byte>, rest: seq<byte>)
    requires |kind| == 4 && |data| < Two32
    ensures ParseChunk(Chunk(kind, data) + rest) == Some(Parsed(kind, data, rest))
  {
    var n := |data|;
    var len, crc := U32Be(n % Two32), U32Be(Crc(kind + data) as nat);
    var s := Chunk(kind, data) + rest;
    assert s == len + (kind + data) + (crc + rest);
    assert s[..4] == len;
    assert s[4..8 + n] == kind + data;
    assert s[4..8] == kind && s[8..8 + n] == data;
    assert s[8 + n..12 + n] == crc && s[12 + n..] == rest;
    assert BigEndian(s[..4]) == n;
    assert Crc(s[4..8 + n]) == Crc(kind + data);
  }

  /**
   * The stored block of a filtered row inflates to that row: when it is
   * final, the bytes after it are what is left over; otherwise inflating
   * goes on with them.  Needs the block length to fit in LEN.
   */
  lemma InflateBlock(final: bool, p: nat, data: seq<byte>, t: seq<byte>)
    requires |data| == p <= 65535
    ensures Inflate(StoredBlock(final, p, data) + t)
         == if final then Some((data, t)) else Prepend(data, Inflate(t))
  {
    var s := StoredBlock(final, p, data) + t;
    assert s[0] == if final then 1 else 0;
    assert s[1] as nat + 256 * s[2] as nat == p;
    assert s[3] as nat + 256 * s[4] as nat == 65535 - p;
    assert s[5..5 + p] == data && s[5 + p..] == t;
  }

  /** Prepending twice is prepending the concatenation. */
  lemma PrependPrepend(a: seq<byte>, b: seq<byte>, r: Option<(seq<byte>, seq<byte>)>)
    ensures Prepend(a, Prepend(b, r)) == Prepend(a + b, r)
  {
    if r.Some? {
      AppendAssoc(a, b, r.value.0);
    }
  }

  /**
   * The blocks of the rows before the last are not final: inflating them,
   * and whatever follows, yields their filtered rows ahead of what the
   * following bytes inflate to.
   */
  lemma {:induction false} InflateLeading(rows: seq<seq<byte>>, h: nat, p: nat, t: seq<byte>)
    requires |rows| < h && 1 <= p <= 65535
    requires forall y | 0 <= y < |rows| :: |rows[y]| == p - 1
    ensures Inflate(Blocks(rows, h, p) + t) == Prepend(Filtered(rows), Inflate(t))
    decreases |rows|
  {
    if rows == [] {
      assert Blocks(rows, h, p) + t == t;
      match Inflate(t) {
        case None =>
        case Some((e, u)) => assert [] + e == e;
      }
    } else {
      var init, last := rows[..|rows| - 1], rows[|rows| - 1];
      var block := StoredBlock(false, p, [0] + last);
      AppendAssoc(Blocks(init, h, p), block, t);
      InflateLeading(init, h, p, block + t);
      InflateBlock(false, p, [0] + last, t);
      PrependPrepend(Filtered(init), [0] + last, Inflate(t));
      AppendAssoc(Filtered(init), [0], last);
    }
  }

  /**
   * All `h` blocks inflate to the filtered rows, the last block being final
   * and leaving `t` over.
   */
  lemma InflateBlocks(rows: seq<seq<byte>>, p: nat, t: seq<byte>)
    requires 1 <= |rows| && 1 <= p <= 65535
    requires forall y | 0 <= y < |rows| :: |rows[y]| == p - 1
    ensures Inflate(Blocks(rows, |rows|, p) + t) == Some((Filtered(rows), t))
  {
    var h := |rows|;
    var init, last := rows[..h - 1], rows[h - 1];
    var block := StoredBlock(true, p, [0] + last);
    AppendAssoc(Blocks(init, h, p), block, t);
    InflateLeading(init, h, p, block + t);
    InflateBlock(true, p, [0] + last, t);
    AppendAssoc(Filtered(init), [0], last);
  }

  /** The writer's zlib stream decodes to the filtered rows it was made from. */
  lemma ZlibRoundTrip(rows: seq<seq<byte>>, p: nat)
    requires 1 <= |rows| && 1 <= p <= 65535
    requires forall y | 0 <= y < |rows| :: |rows[y]| == p - 1
    ensures ZlibDecode(ZlibStream(rows, p)) == Some(Filtered(rows))
  {
    var blocks, check := Blocks(rows, |rows|, p), U32Be(Adler32.Checksum(Filtered(rows)));
    var s := ZlibStream(rows, p);
    DropHeader(ZlibHeader, blocks, check);
    InflateBlocks(rows, p, check);
    assert s[..2] == ZlibHeader;
    ZlibAccepts(s, Filtered(rows), check);
  }

  /** Filtered rows of `n` bytes each split back into those rows. */
  lemma {:induction false} UnfilterFiltered(rows: seq<seq<byte>>, n: nat)
    requires forall y | 0 <= y < |rows| :: |rows[y]| == n
    ensures Unfilter(Filtered(rows), n, |rows|) == Some(rows)
    decreases |rows|
  {
    if rows != [] {
      var init, last := rows[..|rows| - 1], rows[|rows| - 1];
      var data := Filtered(rows);
      var k := |data| - (n + 1);
      assert data == Filtered(init) + [0] + last;
      assert data[..k] == Filtered(init) && data[k] == 0 && data[k + 1..] == last;
      UnfilterFiltered(init, n);
      assert init + [last] == rows;
    }
  }

  /** What follows a two-byte header. */
  lemma DropHeader(header: seq<byte>, body: seq<byte>, trailer: seq<byte>)
    requires |header| == 2
    ensures (header + body + trailer)[2..] == body + trailer
  {
  }

  /** A stream with the writer's zlib header is accepted when its blocks inflate and the checksum that follows them matches. */
  lemma ZlibAccepts(s: seq<byte>, d: seq<byte>, t: seq<byte>)
    requires |s| >= 2 && s[..2] == ZlibHeader
    requires Inflate(s[2..]) == Some((d, t)) && |t| == 4 && BigEndian(t) == Adler32.Checksum(d)
    ensures ZlibDecode(s) == Some(d)
  {
    assert s[0] == 0x78 && s[1] == 0x01;
  }

  /** The IHDR data reads back as the width, height and alpha flag it was made from. */
  lemma HeaderRoundTrip(w: nat, h: nat, alpha: bool)
    requires w < Two32 && h < Two32
    ensures ParseHeader(ImageHeader(w, h, alpha)) == Some((w, h, alpha))
  {
    var d := ImageHeader(w, h, alpha);
    assert d[..4] == U32Be(w) && d[4..8] == U32Be(h);
    assert d[10..] == [0, 0, 0];
  }

  /** A file whose three chunks parse as IHDR, IDAT and an empty IEND is read through its header and image data. */
  lemma DecodeAccepts(file: seq<byte>, header: seq<byte>, data: seq<byte>, rest1: seq<byte>, rest2: seq<byte>)
    requires |file| >= 8 && file[..8] == Signature
    requires ParseChunk(file[8..]) == Some(Parsed(IhdrType, header, rest1))
    requires ParseChunk(rest1) == Some(Parsed(IdatType, data, rest2))
    requires ParseChunk(rest2) == Some(Parsed(IendType, [], []))
    requires ParseHeader(header).Some?
    ensures Decode(file)
         == ParseImageData(ParseHeader(header).value.0, ParseHeader(header).value.1, ParseHeader(header).value.2, data)
  {
  }

  /**
   * The round trip: the file the writer produces reads back as the image it
   * was given, provided the file is valid at all: at least one row, a pitch
   * that fits LEN of a stored block, and an IDAT length that fits 32 bits.
   */
  lemma EncodeDecode(w: nat, h: nat, img: seq<byte>, alpha: bool)
    requires WellSized(w, h, img, alpha)
    requires 1 <= h && Pitch(w, alpha) <= 65535 && 2 + h * (5 + Pitch(w, alpha)) + 4 < Two32
    ensures Decode(Encode(w, h, img, alpha)) == Some(Image(w, h, alpha, img))
  {
    var p := Pitch(w, alpha);
    var rows := Rows(img, p - 1, h);
    BlocksLength(rows, h, p - 1);
    TimesIsProduct(h, 5 + p);
    ChunksRoundTrip(w, h, alpha, ZlibStream(rows, p));
    ImageDataRoundTrip(w, h, img, alpha);
  }

  /** The chunk layout of the writer parses, and the file reads as what its IDAT data holds. */
  lemma ChunksRoundTrip(w: nat, h: nat, alpha: bool, stream: seq<byte>)
    requires w < Two32 && h < Two32 && |stream| < Two32
    ensures Decode(Signature + Chunk(IhdrType, ImageHeader(w, h, alpha)) + Chunk(IdatType, stream) + Chunk(IendType, []))
         == ParseImageData(w, h, alpha, stream)
  {
    var header := ImageHeader(w, h, alpha);
    var ihdr, idat, iend := Chunk(IhdrType, header), Chunk(IdatType, stream), Chunk(IendType, []);
    AfterSignature(Signature, ihdr, idat, iend);
    ChunkRoundTrip(IhdrType, header, idat + iend);
    assert iend + [] == iend;
    ChunkRoundTrip(IdatType, stream, iend);
    ChunkRoundTrip(IendType, [], []);
    HeaderRoundTrip(w, h, alpha);
    DecodeAccepts(Signature + ihdr + idat + iend, header, stream, idat + iend, iend);
  }

  /** The writer's IDAT data decodes to its image. */
  lemma ImageDataRoundTrip(w: nat, h: nat, img: seq<byte>, alpha: bool)
    requires WellSized(w, h, img, alpha)
    requires 1 <= h && Pitch(w, alpha) <= 65535
    ensures ParseImageData(w, h, alpha, ZlibStream(Rows(img, Pitch(w, alpha) - 1, h), Pitch(w, alpha)))
         == Some(Image(w, h, alpha, img))
  {
    var p := Pitch(w, alpha);
    var rows := Rows(img, p - 1, h);
    ZlibRoundTrip(rows, p);
    UnfilterFiltered(rows, p - 1);
    FlattenRows(img, p - 1, h);
  }

  /** What follows the eight-byte signature. */
  lemma AfterSignature(sig: seq<byte>, a: seq<byte>, b: seq<byte>, c: seq<byte>)
    requires |sig| == 8
    ensures |sig + a + b + c| >= 8 && (sig + a + b + c)[..8] == sig
    ensures (sig + a + b + c)[8..] == a + (b + c)
  {
  }
}
