/**
 * Netpbm grey-map and pixmap files (PGM and PPM) as the file utilities read
 * and write them (InfiniTAM/ORUtils/FileUtils.cpp): the header
 * `<id>\n<width> <height>\n<maxval>\n`, then the samples, either raw
 * (identifiers P5 and P6) or as decimal text (P2 and P3).
 *
 * Files are byte strings; `fscanf` and `fprintf` are the conversions of the
 * `Scan` module.  Sixteen-bit samples travel as their bit patterns.
 */
module Pnm {
  import opened Bytes
  import opened Wrappers
  import opened Scan
  import opened Grid

  /** The pixel formats of the file utilities (`FormatType`). */
  datatype Format = Mono8u | Rgb8u | Mono16u | Mono16s | Rgba8u | Unknown

  /** What a header says: the pixel format, the size, and whether the samples are raw bytes. */
  datatype Header = Header(format: Format, width: int, height: int, binary: bool)

  /** The four identifiers: "P5" and "P6" for raw samples, "P2" and "P3" for text. */
  const PgmId: seq<byte> := [0x50, 0x35]
  const PpmId: seq<byte> := [0x50, 0x36]
  const PgmAsciiId: seq<byte> := [0x50, 0x32]
  const PpmAsciiId: seq<byte> := [0x50, 0x33]

  /** The identifier decides the format before the maxval is seen, and whether samples are raw. */
  function Classify(id: seq<byte>): (r: Option<(Format, bool)>)
    ensures r.Some? <==> id == PgmId || id == PgmAsciiId || id == PpmId || id == PpmAsciiId
    ensures r.Some? ==>
      (r.value.0 == Mono8u || r.value.0 == Rgb8u)
      && (r.value.0 == Rgb8u <==> id == PpmId || id == PpmAsciiId)
      && (r.value.1 <==> id == PgmId || id == PpmId)
  {
    if id == PgmId then Some((Mono8u, true))
    else if id == PgmAsciiId then Some((Mono8u, false))
    else if id == PpmId then Some((Rgb8u, true))
    else if id == PpmAsciiId then Some((Rgb8u, false))
    else None
  }

  /**
   * The maxval then keeps the format, widens a grey map to 16 bits (signed
   * up to 2^15, unsigned up to 2^16), or rejects the header.
   */
  function Refine(format: Format, maxval: int): (r: Format)
    ensures maxval < 0 ==> r == Unknown
    ensures 0 <= maxval <= 256 ==> r == format
    ensures 256 < maxval ==> (r != Unknown <==> format == Mono8u && maxval <= 65536)
    ensures 256 < maxval && r != Unknown ==> (r == Mono16s <==> maxval <= 32768) && (r == Mono16u <==> 32768 < maxval)
  {
    if maxval < 0 then Unknown
    else if maxval <= 256 then format
    else if maxval <= 32768 && format == Mono8u then Mono16s
    else if maxval <= 65536 && format == Mono8u then Mono16u
    else Unknown
  }

  /** `fgetc`: one byte is consumed, if there is one. */
  function SkipByte(s: seq<byte>): seq<byte> {
    if s == [] then [] else s[1..]
  }

  /**
   * One `%i` field of the header.  With `eofPasses` the field is checked
   * as the reader writes it, `if (!fscanf(...))`, which lets an `EOF`
   * result through and leaves the variable at its initial `unset`; without
   * it, the field must match.
   */
  function HeaderInt(s: seq<byte>, unset: int, eofPasses: bool): Option<(int, seq<byte>)> {
    match ScanInt(s)
    case Matched(v, rest) => Some((v, rest))
    case Mismatch => None
    case AtEnd => if eofPasses then Some((unset, [])) else None
  }

  /**
   * `pnm_readheader`: the identifier (which must match), width, height and
   * maxval, then one byte of white space.  Yields the header and the input
   * after it, or nothing where the reader returns `FORMAT_UNKNOWN`.
   */
  function ReadHeaderBy(s: seq<byte>, eofPasses: bool): (r: Option<(Header, seq<byte>)>)
    ensures r.Some? ==> r.value.0.format != Unknown && r.value.0.format != Rgba8u
  {
    if !ScanWord(s).Matched? then None
    else
      var kind :- Classify(ScanWord(s).value);
      var xs :- HeaderInt(ScanWord(s).rest, 0, eofPasses);
      var ys :- HeaderInt(xs.1, 0, eofPasses);
      var maxval :- HeaderInt(ys.1, 0, eofPasses);
      var format := Refine(kind.0, maxval.0);
      if format == Unknown then None
      else Some((Header(format, xs.0, ys.0, kind.1), SkipByte(maxval.1)))
  }

  /**
   * The header reader as the source writes it: a size or maxval field at
   * the end of the input is let through, so an identifier with nothing but
   * white space after it reads as an image of size 0 by 0.
   */
  function ReadHeaderAsWritten(s: seq<byte>): (r: Option<(Header, seq<byte>)>)
    ensures r.Some? ==> r.value.0.format != Unknown && r.value.0.format != Rgba8u
    ensures ScanWord(s).Matched? && Classify(ScanWord(s).value).Some? && SkipSpace(ScanWord(s).rest) == [] ==>
      var (kind, binary) := Classify(ScanWord(s).value).value;
      r == Some((Header(kind, 0, 0, binary), []))
  {
    HeaderAtEnd(s);
    ReadHeaderBy(s, true)
  }

  /** With the end of input let through, every field after a lone identifier reads as zero. */
  lemma HeaderAtEnd(s: seq<byte>)
    ensures ScanWord(s).Matched? && Classify(ScanWord(s).value).Some? && SkipSpace(ScanWord(s).rest) == [] ==>
      var (kind, binary) := Classify(ScanWord(s).value).value;
      ReadHeaderBy(s, true) == Some((Header(kind, 0, 0, binary), []))
  {
    var w := ScanWord(s);
    if w.Matched? && Classify(w.value).Some? && SkipSpace(w.rest) == [] {
      HeaderCutOff(s, w.value, w.rest);
    }
  }

  /** A known identifier at which `%i` meets the end of input reads, as written, as a 0 by 0 image. */
  lemma HeaderCutOff(s: seq<byte>, id: seq<byte>, t0: seq<byte>)
    requires ScanWord(s) == Matched(id, t0) && Classify(id).Some? && ScanInt(t0) == AtEnd
    ensures ReadHeaderBy(s, true) == Some((Header(Classify(id).value.0, 0, 0, Classify(id).value.1), []))
  {
    assert ScanInt([]) == AtEnd;
  }

  /**
   * The header reader with every field required to match, as the identifier
   * already is.  It yields only formats the writer has an identifier for.
   */
  function ReadHeader(s: seq<byte>): (r: Option<(Header, seq<byte>)>)
    ensures r.Some? ==> r.value.0.format != Unknown && r.value.0.format != Rgba8u
  {
    ReadHeaderBy(s, false)
  }

  /** The strict reader rejects a word with nothing but white space after it. */
  lemma HeaderCutOffRejected(s: seq<byte>)
    requires ScanWord(s).Matched? && SkipSpace(ScanWord(s).rest) == []
    ensures ReadHeader(s) == None
  {
    assert ScanInt(ScanWord(s).rest) == AtEnd;
  }

  /** The three lines the writer prints: identifier, `width height`, maxval. */
  function HeaderText(id: seq<byte>, width: int, height: int, maxval: int): (r: seq<byte>)
    ensures |r| > |id| + 1 && r[..|id|] == id && r[|id|] == Newline && r[|r| - 1] == Newline
  {
    id + [Newline]
    + (Decimal(width) + [Space] + Decimal(height) + [Newline]
    + (Decimal(maxval) + [Newline]))
  }

  /**
   * `pnm_writeheader`'s table: the identifier and maxval of each format it
   * can write.  `mono8Max` is the maxval written for 8-bit grey maps.
   */
  function HeaderFields(format: Format, mono8Max: int): (r: Option<(seq<byte>, int)>)
    ensures r.Some? <==> format != Unknown && format != Rgba8u
    ensures r.Some? ==> (r.value.0 == PpmId <==> format == Rgb8u) && (r.value.0 == PgmId <==> format != Rgb8u)
  {
    match format
    case Mono8u => Some((PgmId, mono8Max))
    case Rgb8u => Some((PpmId, 255))
    case Mono16s => Some((PgmId, 32767))
    case Mono16u => Some((PgmId, 65535))
    case _ => None
  }

  /** `pnm_writeheader` as the source writes it: maxval 256 for 8-bit grey maps. */
  function WriteHeaderAsWritten(width: int, height: int, format: Format): (r: Option<seq<byte>>)
    ensures r.None? <==> format == Unknown || format == Rgba8u
  {
    var fields :- HeaderFields(format, 256);
    Some(HeaderText(fields.0, width, height, fields.1))
  }

  /** `pnm_writeheader` with maxval 255 for 8-bit grey maps; fails for the formats it has no identifier for. */
  function WriteHeader(width: int, height: int, format: Format): (r: Option<seq<byte>>)
    ensures r.None? <==> format == Unknown || format == Rgba8u
  {
    var fields :- HeaderFields(format, 255);
    Some(HeaderText(fields.0, width, height, fields.1))
  }

  /** Samples per pixel by format; zero where the data functions have no table entry. */
  function Channels(format: Format): (r: nat)
    ensures r <= 3 && (r == 3 <==> format == Rgb8u)
    ensures r == 0 <==> SampleBytes(format) == 0
  {
    match format
    case Mono8u => 1
    case Rgb8u => 3
    case Mono16s => 1
    case Mono16u => 1
    case _ => 0
  }

  /** Bytes per raw sample by format (`sizeof` of the sample type); zero where there is none. */
  function SampleBytes(format: Format): (r: nat)
    ensures r == 0 <==> format == Unknown || format == Rgba8u
    ensures r == 2 <==> format == Mono16s || format == Mono16u
  {
    match format
    case Mono8u => 1
    case Rgb8u => 1
    case Mono16s => 2
    case Mono16u => 2
    case _ => 0
  }

  /** Samples in a `width` by `height` image of `channels` samples per pixel, row after row. */
  function SampleCount(width: nat, height: nat, channels: nat): nat {
    Times(height, Times(width, channels))
  }

  /**
   * `xsize * ysize * channels` as the source computes it (overflow aside):
   * the count of a `|xsize|` by `|ysize|` image, negative when exactly one
   * size is.
   */
  function Product(xsize: int, ysize: int, channels: nat): int {
    var n: int := SampleCount(if xsize < 0 then -xsize else xsize, if ysize < 0 then -ysize else ysize, channels);
    if (xsize < 0) != (ysize < 0) then -n else n
  }

  /** The sample count is the product of the sizes and the channels. */
  lemma SampleCountIsProduct(width: nat, height: nat, channels: nat)
    ensures SampleCount(width, height, channels) == width * height * channels
  {
    TimesIsProduct(width, channels);
    TimesIsProduct(height, Times(width, channels));
  }

  /** So is the signed count. */
  lemma ProductIsProduct(xsize: int, ysize: int, channels: nat)
    ensures Product(xsize, ysize, channels) == xsize * ysize * channels
  {
    var w: nat := if xsize < 0 then -xsize else xsize;
    var h: nat := if ysize < 0 then -ysize else ysize;
    SampleCountIsProduct(w, h, channels);
  }

  /**
   * `pnm_readdata_binary`: `fread` of `xsize * ysize * channels` samples,
   * which must all be there; a negative count, converted to `size_t`, asks
   * for more than any input holds.  Yields the bytes of the samples and the
   * input after them.
   */
  function ReadBinary(s: seq<byte>, xsize: int, ysize: int, format: Format): (r: Option<(seq<byte>, seq<byte>)>)
    ensures var count := Product(xsize, ysize, Channels(format));
      r.Some? <==> SampleBytes(format) != 0 && count >= 0 && |s| >= count * SampleBytes(format)
    ensures r.Some? ==>
      r.value.0 + r.value.1 == s && |r.value.0| == Product(xsize, ysize, Channels(format)) * SampleBytes(format)
  {
    var count := Product(xsize, ysize, Channels(format));
    if SampleBytes(format) == 0 || count < 0 || |s| < count * SampleBytes(format) then None
    else
      var n := count * SampleBytes(format);
      assert s[..n] + s[n..] == s;
      Some((s[..n], s[n..]))
  }

  /**
   * `pnm_writedata`: `fwrite` of the first samples of the buffer, as many
   * as the size and format call for; nothing for a format without a table
   * entry.
   */
  function WriteData(width: nat, height: nat, format: Format, data: seq<byte>): (r: seq<byte>)
    requires |data| >= SampleCount(width, height, Channels(format)) * SampleBytes(format)
    ensures |r| == SampleCount(width, height, Channels(format)) * SampleBytes(format)
    ensures r == data[..|r|]
  {
    data[..SampleCount(width, height, Channels(format)) * SampleBytes(format)]
  }

  /**
   * `n` conversions one after another, each starting where the previous
   * one stopped; the first that fails fails them all.
   */
  function Repeat(next: seq<byte> -> Option<(int, seq<byte>)>, s: seq<byte>, n: nat): (r: Option<(seq<int>, seq<byte>)>)
    ensures r.Some? ==> |r.value.0| == n
    decreases n
  {
    if n == 0 then Some(([], s))
    else
      match next(s)
      case None => None
      case Some((v, rest)) => Then([v], Repeat(next, rest, n - 1))
  }

  /** One `%i` of the sample loop, with or without the unchecked `EOF`. */
  function SampleBy(eofPasses: bool, stale: int): seq<byte> -> Option<(int, seq<byte>)> {
    t => HeaderInt(t, stale, eofPasses)
  }

  /**
   * `n` text samples read one `%i` at a time.  With `eofPasses`, as the
   * helper is written, `if (!fscanf(...))` lets an `EOF` result through and
   * the sample takes whatever `stale` value the uninitialised `v` holds.
   */
  function AsciiSamplesBy(s: seq<byte>, n: nat, eofPasses: bool, stale: int): (r: Option<(seq<int>, seq<byte>)>)
    ensures r.Some? ==> |r.value.0| == n
  {
    Repeat(SampleBy(eofPasses, stale), s, n)
  }

  /**
   * The text samples as the helper reads them as written: where nothing but
   * white space is left, the first sample is `stale`.
   */
  function AsciiSamplesAsWritten(s: seq<byte>, n: nat, stale: int): (r: Option<(seq<int>, seq<byte>)>)
    ensures r.Some? ==> |r.value.0| == n
    ensures n > 0 && SkipSpace(s) == [] && r.Some? ==> r.value.0[0] == stale
  {
    AsciiSamplesBy(s, n, true, stale)
  }

  /** The text samples with every one required to match: where nothing but white space is left, the read fails. */
  function AsciiSamples(s: seq<byte>, n: nat): (r: Option<(seq<int>, seq<byte>)>)
    ensures r.Some? ==> |r.value.0| == n
    ensures n > 0 && SkipSpace(s) == [] ==> r.None?
  {
    AsciiSamplesBy(s, n, false, 0)
  }

  /** Samples after the conversion of `*data++ = v` to the buffer's element type. */
  function Stored<T>(vs: seq<int>, store: int -> T): (r: seq<T>)
    ensures |r| == |vs|
    decreases |vs|
  {
    if vs == [] then [] else Stored(vs[..|vs| - 1], store) + [store(vs[|vs| - 1])]
  }

  /** Cell `i` holds sample `i`, converted. */
  lemma {:induction false} StoredAt<T>(vs: seq<int>, store: int -> T, i: nat)
    requires i < |vs|
    ensures Stored(vs, store)[i] == store(vs[i])
    decreases |vs|
  {
    if i < |vs| - 1 {
      StoredAt(vs[..|vs| - 1], store, i);
    }
  }

  /** `int` to `unsigned char`: the value modulo 256. */
  function ToByte(v: int): (r: byte)
    ensures 0 <= v < 256 ==> r as int == v
    ensures (v - r as int) % 256 == 0
  {
    (v % 256) as byte
  }

  /** `int` to `short` or `unsigned short`, as a bit pattern: the value modulo 2^16. */
  function ToU16(v: int): (r: u16)
    ensures 0 <= v < 0x1_0000 ==> r as int == v
    ensures (v - r as int) % 0x1_0000 == 0
  {
    (v % 0x1_0000) as u16
  }

  /** Prefixes the samples of a successful read. */
  function Then(vs: seq<int>, r: Option<(seq<int>, seq<byte>)>): Option<(seq<int>, seq<byte>)> {
    match r
    case None => None
    case Some((ws, t)) => Some((vs + ws, t))
  }

  /**
   * `pnm_readdata_ascii_helper` with the corrected check: for each row,
   * pixel and channel, one `%i` stored through `data++`, and a `%i` that
   * meets the end of input fails like one that does not match.  Succeeds
   * exactly when all samples are there, and then the buffer starts with
   * them, converted by `store`.
   */
  method ReadAsciiHelper<T>(s: seq<byte>, xsize: int, ysize: int, channels: nat, store: int -> T, data: array<T>)
    returns (ok: bool)
    requires data.Length >= SampleCount(Extent(xsize), Extent(ysize), channels)
    modifies data
    ensures var n := SampleCount(Extent(xsize), Extent(ysize), channels);
      ok == AsciiSamples(s, n).Some?
      && (ok ==> data[..n] == Stored(AsciiSamples(s, n).value.0, store))
  {
    var n := SampleCount(Extent(xsize), Extent(ysize), channels);
    ghost var height := Extent(ysize);
    ghost var rowLength := Times(Extent(xsize), channels);
    assert n == Times(height, rowLength);
    var rest := s;
    var i := 0;
    ghost var vs: seq<int> := [];
    var y := 0;
    while y < ysize
      invariant 0 <= y <= height && i == Times(y, rowLength) && i <= n
      invariant Reading(s, vs, rest) && |vs| == i && Holds(data, i, vs, store)
    {
      Within(y, height, rowLength);
      var read;
      read, rest, i, vs := ReadRow(rest, xsize, channels, store, data, i, s, n, vs, rowLength);
      if !read {
        return false;
      }
      y := y + 1;
    }
    assert y == height;
    return true;
  }

  /**
   * The two inner loops of `pnm_readdata_ascii_helper`: the pixels of one
   * row, stored from `data[i]` on, while `n` samples are read from `input`
   * in all.  The read fails if a sample of this row is missing or does
   * not match.
   */
  method ReadRow<T>(rest: seq<byte>, xsize: int, channels: nat, store: int -> T, data: array<T>, i: nat,
                    ghost input: seq<byte>, ghost n: nat, ghost vs: seq<int>, ghost rowLength: nat)
    returns (ok: bool, rest': seq<byte>, i': nat, ghost vs': seq<int>)
    requires rowLength == Times(Extent(xsize), channels)
    requires i + rowLength <= data.Length && i + rowLength <= n
    requires Reading(input, vs, rest) && |vs| == i && Holds(data, i, vs, store)
    modifies data
    ensures !ok ==> AsciiSamples(input, n) == None
    ensures ok ==> Reading(input, vs', rest') && i' == i + rowLength && |vs'| == i' && Holds(data, i', vs', store)
  {
    ghost var width := Extent(xsize);
    ok, rest', i', vs' := true, rest, i, vs;
    var x := 0;
    while x < xsize
      invariant 0 <= x <= width && i' == i + Times(x, channels) && Times(x, channels) <= rowLength
      invariant Reading(input, vs', rest') && |vs'| == i' && Holds(data, i', vs', store)
    {
      Within(x, width, channels);
      ok, rest', i', vs' := ReadPixel(rest', channels, store, data, i', input, n, vs');
      if !ok {
        return;
      }
      x := x + 1;
    }
    assert x == width;
  }

  /**
   * The innermost loop of `pnm_readdata_ascii_helper`: the `channels`
   * samples of one pixel, stored from `data[i]` on, as `ReadRow` states.
   */
  method ReadPixel<T>(rest: seq<byte>, channels: nat, store: int -> T, data: array<T>, i: nat,
                      ghost input: seq<byte>, ghost n: nat, ghost vs: seq<int>)
    returns (ok: bool, rest': seq<byte>, i': nat, ghost vs': seq<int>)
    requires i + channels <= data.Length && i + channels <= n
    requires Reading(input, vs, rest) && |vs| == i && Holds(data, i, vs, store)
    modifies data
    ensures !ok ==> AsciiSamples(input, n) == None
    ensures ok ==> Reading(input, vs', rest') && i' == i + channels && |vs'| == i' && Holds(data, i', vs', store)
  {
    ok, rest', i', vs' := true, rest, i, vs;
    var c := 0;
    while c < channels
      invariant 0 <= c <= channels && i' == i + c
      invariant Reading(input, vs', rest') && |vs'| == i' && Holds(data, i', vs', store)
    {
      var scanned := ScanInt(rest');
      if !scanned.Matched? {
        Stuck(input, n, vs', rest');
        return false, rest', i', vs';
      }
      data[i'] := store(scanned.value);
      StoreStep(data[..i' + 1], vs', scanned.value, store);
      Advance(input, vs', rest', scanned.value, scanned.rest);
      vs', rest', i' := vs' + [scanned.value], scanned.rest, i' + 1;
      c := c + 1;
    }
  }

  /**
   * `pnm_readdata_ascii`: the helper with the channel count of the format
   * (the buffer's element type, and so `store`, is the caller's); formats
   * without a table entry fail.
   */
  method ReadAscii<T>(s: seq<byte>, xsize: int, ysize: int, format: Format, store: int -> T, data: array<T>)
    returns (ok: bool)
    requires data.Length >= SampleCount(Extent(xsize), Extent(ysize), Channels(format))
    modifies data
    ensures var n := SampleCount(Extent(xsize), Extent(ysize), Channels(format));
      ok == (Channels(format) != 0 && AsciiSamples(s, n).Some?)
      && (ok ==> data[..n] == Stored(AsciiSamples(s, n).value.0, store))
  {
    if Channels(format) == 0 {
      return false;
    }
    ok := ReadAsciiHelper(s, xsize, ysize, Channels(format), store, data);
  }

  /**
   * The read is under way: the first `|vs|` samples of `input` are `vs`,
   * and the text after them is `rest`.
   */
  ghost predicate Reading(input: seq<byte>, vs: seq<int>, rest: seq<byte>) {
    AsciiSamples(input, |vs|) == Some((vs, rest))
  }

  /** The first `i` cells of the buffer hold the samples `vs`, converted. */
  ghost predicate Holds<T>(data: array<T>, i: nat, vs: seq<int>, store: int -> T)
    reads data
  {
    i <= data.Length && data[..i] == Stored(vs, store)
  }

  /** One step of the helper: a matched `%i` after the samples read so far is the next sample. */
  lemma Advance(input: seq<byte>, vs: seq<int>, rest: seq<byte>, v: int, rest': seq<byte>)
    requires Reading(input, vs, rest) && ScanInt(rest) == Matched(v, rest')
    ensures Reading(input, vs + [v], rest')
  {
    var next := SampleBy(false, 0);
    assert next(rest) == Some((v, rest'));
    RepeatStep(next, input, |vs|, vs, rest, v, rest');
  }

  /** A `%i` that does not match or meets the end of input, while samples are still to read, fails the corrected read. */
  lemma Stuck(input: seq<byte>, n: nat, vs: seq<int>, rest: seq<byte>)
    requires Reading(input, vs, rest) && |vs| < n && !ScanInt(rest).Matched?
    ensures AsciiSamples(input, n) == None
  {
    var next := SampleBy(false, 0);
    assert next(rest) == None;
    RepeatStuck(next, input, |vs|, n, vs, rest);
  }

  /** One more conversion that succeeds extends the values converted so far. */
  lemma RepeatStep(next: seq<byte> -> Option<(int, seq<byte>)>, s: seq<byte>, k: nat, vs: seq<int>, rest: seq<byte>, v: int, rest': seq<byte>)
    requires Repeat(next, s, k) == Some((vs, rest)) && next(rest) == Some((v, rest'))
    ensures Repeat(next, s, k + 1) == Some((vs + [v], rest'))
  {
    RepeatPrefix(next, s, k, 1, vs, rest);
    assert Repeat(next, rest', 0) == Some(([], rest'));
    assert [v] + [] == [v];
  }

  /** A conversion that fails, while more are due, fails them all. */
  lemma RepeatStuck(next: seq<byte> -> Option<(int, seq<byte>)>, s: seq<byte>, k: nat, n: nat, vs: seq<int>, rest: seq<byte>)
    requires Repeat(next, s, k) == Some((vs, rest)) && k < n && next(rest) == None
    ensures Repeat(next, s, n) == None
  {
    RepeatPrefix(next, s, k, n - k, vs, rest);
  }

  /** `k + m` conversions are the first `k`, then `m` more from where they stopped. */
  lemma {:induction false} RepeatPrefix(next: seq<byte> -> Option<(int, seq<byte>)>, s: seq<byte>, k: nat, m: nat, vs: seq<int>, rest: seq<byte>)
    requires Repeat(next, s, k) == Some((vs, rest))
    ensures Repeat(next, s, k + m) == Then(vs, Repeat(next, rest, m))
    decreases k
  {
    if k == 0 {
      ThenNothing(Repeat(next, rest, m));
    } else {
      var (v, r) := next(s).value;
      var tail := Repeat(next, r, k - 1);
      assert tail.Some? && vs == [v] + tail.value.0 && rest == tail.value.1;
      RepeatPrefix(next, r, k - 1, m, tail.value.0, rest);
      ThenThen([v], tail.value.0, Repeat(next, rest, m));
    }
  }

  /** `n + 1` samples are one `%i` followed by `n` samples. */
  lemma SamplesBy(s: seq<byte>, n: nat, eofPasses: bool, stale: int)
    ensures HeaderInt(s, stale, eofPasses).None? ==> AsciiSamplesBy(s, n + 1, eofPasses, stale) == None
    ensures HeaderInt(s, stale, eofPasses).Some? ==>
      var (v, r) := HeaderInt(s, stale, eofPasses).value;
      AsciiSamplesBy(s, n + 1, eofPasses, stale) == Then([v], AsciiSamplesBy(r, n, eofPasses, stale))
  {
  }

  /** A buffer that held the samples so far and now holds one more. */
  lemma StoreStep<T>(written: seq<T>, vs: seq<int>, v: int, store: int -> T)
    requires |written| == |vs| + 1 && written[..|vs|] == Stored(vs, store) && written[|vs|] == store(v)
    ensures written == Stored(vs + [v], store)
  {
    assert (vs + [v])[..|vs|] == vs;
    assert written == written[..|vs|] + [written[|vs|]];
  }

  /** Prefixing no samples changes nothing. */
  lemma ThenNothing(r: Option<(seq<int>, seq<byte>)>)
    ensures Then([], r) == r
  {
    match r
    case None =>
    case Some((ws, t)) => assert [] + ws == ws;
  }

  /** Prefixing samples in two steps prefixes them together. */
  lemma ThenThen(us: seq<int>, vs: seq<int>, r: Option<(seq<int>, seq<byte>)>)
    ensures Then(us, Then(vs, r)) == Then(us + vs, r)
  {
    match r
    case None =>
    case Some((ws, t)) => AppendAssoc(us, vs, ws);
  }

  /* Header round trip */

  /** The header text, split where the reader's conversions stop. */
  lemma HeaderTextLayout(id: seq<byte>, width: int, height: int, maxval: int, rest: seq<byte>)
    ensures HeaderText(id, width, height, maxval) + rest
      == id + ([Newline] + Decimal(width) + ([Space] + Decimal(height) + ([Newline] + Decimal(maxval) + ([Newline] + rest))))
  {
    var w, h, m := Decimal(width), Decimal(height), Decimal(maxval);
    calc {
      HeaderText(id, width, height, maxval) + rest;
      id + [Newline] + (w + [Space] + h + [Newline] + (m + [Newline])) + rest;
      { AppendAssoc(id + [Newline], w + [Space] + h + [Newline] + (m + [Newline]), rest); }
      id + [Newline] + (w + [Space] + h + [Newline] + (m + [Newline]) + rest);
      { AppendAssoc(w + [Space] + h + [Newline], m + [Newline], rest); }
      id + [Newline] + (w + [Space] + h + [Newline] + (m + [Newline] + rest));
      { AppendAssoc(m, [Newline], rest); }
      id + [Newline] + (w + [Space] + h + [Newline] + (m + ([Newline] + rest)));
      { assert w + [Space] + h + [Newline] + (m + ([Newline] + rest)) == w + ([Space] + h + ([Newline] + m + ([Newline] + rest))); }
      id + [Newline] + (w + ([Space] + h + ([Newline] + m + ([Newline] + rest))));
      { AppendAssoc(id, [Newline], w + ([Space] + h + ([Newline] + m + ([Newline] + rest)))); }
      id + ([Newline] + (w + ([Space] + h + ([Newline] + m + ([Newline] + rest)))));
      { AppendAssoc([Newline], w, [Space] + h + ([Newline] + m + ([Newline] + rest))); }
      id + ([Newline] + w + ([Space] + h + ([Newline] + m + ([Newline] + rest))));
    }
  }

  /**
   * The reader's decisions, once its four conversions have matched: the
   * identifier and maxval give the format, the sizes are taken as read, and
   * one byte after the maxval is consumed.
   */
  lemma HeaderMatched(s: seq<byte>, id: seq<byte>, t0: seq<byte>, w: int, t1: seq<byte>, h: int, t2: seq<byte>,
                      m: int, t3: seq<byte>, eofPasses: bool)
    requires ScanWord(s) == Matched(id, t0) && Classify(id).Some?
    requires ScanInt(t0) == Matched(w, t1) && ScanInt(t1) == Matched(h, t2) && ScanInt(t2) == Matched(m, t3)
    ensures ReadHeaderBy(s, eofPasses) ==
      var format := Refine(Classify(id).value.0, m);
      if format == Unknown then None else Some((Header(format, w, h, Classify(id).value.1), SkipByte(t3)))
  {
  }

  /** Every identifier the reader knows is one word. */
  lemma IdIsWord(id: seq<byte>)
    requires Classify(id).Some?
    ensures id != [] && forall i | 0 <= i < |id| :: !IsDelimiter(id[i])
  {
    assert |id| == 2 && !IsDelimiter(id[0]) && !IsDelimiter(id[1]);
  }

  /** What the writer prints for an identifier the reader knows, the reader reads back, whatever follows. */
  lemma ReadHeaderText(id: seq<byte>, width: int, height: int, maxval: int, rest: seq<byte>, eofPasses: bool)
    requires Classify(id).Some?
    ensures ReadHeaderBy(HeaderText(id, width, height, maxval) + rest, eofPasses) ==
      var format := Refine(Classify(id).value.0, maxval);
      if format == Unknown then None else Some((Header(format, width, height, Classify(id).value.1), rest))
  {
    var t3 := [Newline] + rest;
    var t2 := [Newline] + Decimal(maxval) + t3;
    var t1 := [Space] + Decimal(height) + t2;
    var t0 := [Newline] + Decimal(width) + t1;
    HeaderTextLayout(id, width, height, maxval, rest);
    IdIsWord(id);
    ScanWordOf(id, t0);
    ScanDecimal([Newline], width, t1);
    ScanDecimal([Space], height, t2);
    ScanDecimal([Newline], maxval, t3);
    assert SkipByte(t3) == rest;
    HeaderMatched(HeaderText(id, width, height, maxval) + rest, id, t0, width, t1, height, t2, maxval, t3, eofPasses);
  }

  /**
   * `pnm_writeheader` and `pnm_readheader` are inverse: every header the
   * writer produces reads back as the same format and size, with raw
   * samples, and the reader stops right after it.
   */
  lemma HeaderRoundTrip(width: int, height: int, format: Format, rest: seq<byte>)
    requires WriteHeader(width, height, format).Some?
    ensures ReadHeader(WriteHeader(width, height, format).value + rest) == Some((Header(format, width, height, true), rest))
  {
    var (id, maxval) := HeaderFields(format, 255).value;
    assert WriteHeader(width, height, format).value == HeaderText(id, width, height, maxval);
    FieldsRead(format, 255);
    ReadHeaderText(id, width, height, maxval, rest, false);
  }

  /**
   * The writer as written and the reader as written are inverse too: maxval
   * 256 still reads as an 8-bit grey map, and a header with every field
   * present never reaches the unchecked end of input.
   */
  lemma HeaderRoundTripAsWritten(width: int, height: int, format: Format, rest: seq<byte>)
    requires WriteHeaderAsWritten(width, height, format).Some?
    ensures ReadHeaderAsWritten(WriteHeaderAsWritten(width, height, format).value + rest) == Some((Header(format, width, height, true), rest))
  {
    var (id, maxval) := HeaderFields(format, 256).value;
    assert WriteHeaderAsWritten(width, height, format).value == HeaderText(id, width, height, maxval);
    FieldsRead(format, 256);
    ReadHeaderText(id, width, height, maxval, rest, true);
  }

  /**
   * The identifier and maxval the writer chooses, with maxval 255 or 256 for
   * 8-bit grey maps, classify on reading as the format written, with raw
   * samples.
   */
  lemma FieldsRead(format: Format, mono8Max: int)
    requires mono8Max == 255 || mono8Max == 256
    requires HeaderFields(format, mono8Max).Some?
    ensures var (id, maxval) := HeaderFields(format, mono8Max).value;
      Classify(id) == Some((Classify(id).value.0, true)) && Refine(Classify(id).value.0, maxval) == format
  {
  }

  /**
   * The reader yields only formats the writer has an identifier for; the
   * samples are raw exactly for "P5" and "P6", and the image is in colour
   * exactly for "P3" and "P6".
   */
  lemma ReadFormats(s: seq<byte>)
    requires ReadHeader(s).Some?
    ensures ScanWord(s).Matched?
    ensures var header := ReadHeader(s).value.0;
      var id := ScanWord(s).value;
      WriteHeader(header.width, header.height, header.format).Some?
      && (header.binary <==> id == PgmId || id == PpmId)
      && (header.format == Rgb8u <==> id == PpmId || id == PpmAsciiId)
  {
    HeaderKind(s);
  }

  /** The header read keeps what the identifier says: raw or text samples, colour or grey. */
  lemma HeaderKind(s: seq<byte>)
    requires ReadHeader(s).Some?
    ensures ScanWord(s).Matched? && Classify(ScanWord(s).value).Some?
    ensures var (kind, binary) := Classify(ScanWord(s).value).value;
      var header := ReadHeader(s).value.0;
      header.binary == binary && (header.format == Rgb8u <==> kind == Rgb8u)
  {
    var w := ScanWord(s);
    assert w.Matched? && Classify(w.value).Some?;
    var x := ScanInt(w.rest);
    assert x.Matched?;
    var y := ScanInt(x.rest);
    assert y.Matched?;
    var m := ScanInt(y.rest);
    assert m.Matched?;
    HeaderMatched(s, w.value, w.rest, x.value, x.rest, y.value, y.rest, m.value, m.rest, false);
    RefineKeepsColour(Classify(w.value).value.0, m.value);
  }

  /** A maxval the reader accepts leaves a colour image in colour and a grey map grey. */
  lemma RefineKeepsColour(kind: Format, maxval: int)
    requires kind == Mono8u || kind == Rgb8u
    requires Refine(kind, maxval) != Unknown
    ensures Refine(kind, maxval) != Rgba8u
    ensures Refine(kind, maxval) == Rgb8u <==> kind == Rgb8u
  {
  }

  /* Raw sample round trip */

  /** The samples `pnm_writedata` writes, `pnm_readdata_binary` reads back, whatever follows them. */
  lemma DataRoundTrip(width: nat, height: nat, format: Format, data: seq<byte>, rest: seq<byte>)
    requires SampleBytes(format) != 0
    requires |data| >= SampleCount(width, height, Channels(format)) * SampleBytes(format)
    ensures ReadBinary(WriteData(width, height, format, data) + rest, width, height, format)
      == Some((WriteData(width, height, format, data), rest))
  {
    var written := WriteData(width, height, format, data);
    var r := ReadBinary(written + rest, width, height, format);
    assert r.Some?;
    assert r.value.0 == (written + rest)[..|written|] == written;
  }

  /* Divergences of the source */

  /**
   * `if (!fscanf(...))` does not catch `EOF` (148-151): a file holding only
   * the identifier "P5" is read as an 8-bit grey map of size 0 by 0, where
   * a reader that required every field rejects it.
   */
  lemma TruncatedHeader()
    ensures ReadHeaderAsWritten(PgmId) == Some((Header(Mono8u, 0, 0, true), []))
    ensures ReadHeader(PgmId) == None
  {
    assert forall i | 0 <= i < |PgmId| :: !IsDelimiter(PgmId[i]);
    ScanWordOf(PgmId, []);
    assert PgmId + [] == PgmId;
    assert ScanInt([]) == AtEnd;
  }

  /** Where every field matches, the reader as written and the strict reader agree. */
  lemma ReadHeaderAgrees(s: seq<byte>)
    requires ReadHeader(s).Some?
    ensures ReadHeaderAsWritten(s) == ReadHeader(s)
  {
    var t0 := ScanWord(s).rest;
    IntAgrees(t0, 0, 0);
    var t1 := HeaderInt(t0, 0, false).value.1;
    IntAgrees(t1, 0, 0);
    var t2 := HeaderInt(t1, 0, false).value.1;
    IntAgrees(t2, 0, 0);
  }

  /** A conversion that matched does not depend on how the end of the input is treated. */
  lemma IntAgrees(s: seq<byte>, unset: int, unset': int)
    requires HeaderInt(s, unset, false).Some?
    ensures HeaderInt(s, unset', true) == HeaderInt(s, unset, false)
  {
  }

  /**
   * The same unchecked `EOF` in the sample loop (171): text samples missing
   * at the end of the input are "read" as whatever `v` held, and the helper
   * reports success.
   */
  lemma TruncatedSamples(stale: int)
    ensures AsciiSamplesAsWritten([], 1, stale) == Some(([stale], []))
    ensures AsciiSamples([], 1) == None
  {
    assert ScanInt([]) == AtEnd;
    SamplesBy([], 0, true, stale);
    SamplesBy([], 0, false, 0);
    assert HeaderInt([], stale, true) == Some((stale, []));
    assert AsciiSamplesBy([], 0, true, stale) == Some(([], []));
    assert [stale] + [] == [stale];
  }

  /** Where every sample matches, the helper as written and the strict helper agree. */
  lemma {:induction false} AsciiSamplesAgree(s: seq<byte>, n: nat, stale: int)
    requires AsciiSamples(s, n).Some?
    ensures AsciiSamplesAsWritten(s, n, stale) == AsciiSamples(s, n)
    decreases n, 1
  {
    if n > 0 {
      AgreeStep(s, n - 1, stale);
    }
  }

  lemma {:induction false} AgreeStep(s: seq<byte>, m: nat, stale: int)
    requires AsciiSamples(s, m + 1).Some?
    ensures AsciiSamplesAsWritten(s, m + 1, stale) == AsciiSamples(s, m + 1)
    decreases m + 1, 0
  {
    SamplesBy(s, m, false, 0);
    SamplesBy(s, m, true, stale);
    IntAgrees(s, 0, stale);
    var r := HeaderInt(s, 0, false).value.1;
    AsciiSamplesAgree(r, m, stale);
  }

  /** Bytes per sample that a Netpbm reader expects for a maxval: one below 256, two from 256 on. */
  function NetpbmSampleBytes(maxval: int): nat {
    if maxval < 256 then 1 else 2
  }

  /**
   * `pnm_writeheader` writes maxval 256 for 8-bit grey maps (225), which
   * announces two-byte samples, while `pnm_writedata` writes one byte per
   * sample.
   */
  lemma Mono8MaxvalMismatch(width: int, height: int)
    ensures HeaderFields(Mono8u, 256).value.1 == 256
    ensures NetpbmSampleBytes(256) == 2 != SampleBytes(Mono8u)
    ensures WriteHeaderAsWritten(width, height, Mono8u) == Some(HeaderText(PgmId, width, height, 256))
  {
  }

  /** With maxval 255, every header the writer produces announces the sample width the data is written with. */
  lemma MaxvalMatchesSamples(format: Format)
    requires HeaderFields(format, 255).Some?
    ensures NetpbmSampleBytes(HeaderFields(format, 255).value.1) == SampleBytes(format)
  {
  }
}
