/**
 * The public image file functions (InfiniTAM/ORUtils/FileUtils.cpp): save
 * an RGBA image as a binary PPM file, optionally upside down, or as a PNG
 * file; save a 16-bit depth image as a binary PGM file; read them back.
 *
 * Files are byte strings: a saver returns the bytes it writes, a reader
 * takes the bytes of the file.  The image library's class is outside the
 * model: an image is its size and its pixel buffer, and a reader yields a
 * `Picture` where the source resizes and fills the caller's image.  The
 * build modelled has no libpng, so a reader given anything but a Netpbm
 * file of the right kind fails.
 */
module ImageIo {
  import opened Bytes
  import opened Wrappers
  import opened Grid
  import opened Pnm
  import opened Pixels
  import Png

  /** An image as a reader returns it: the size from the header, and the pixels row after row. */
  datatype Picture<P> = Picture(width: int, height: int, pixels: seq<P>)

  /* Saving */

  /** What `SaveImageToFile` writes for an RGBA image: a P6 header, then the colour samples, flipped if asked. */
  function RgbaFile(px: seq<Rgba>, width: nat, height: nat, flip: bool): (file: seq<byte>)
    requires |px| == Times(height, width)
  {
    Counts(width, height);
    WriteHeader(width, height, Rgb8u).value + WriteData(width, height, Rgb8u, Packed(Shown(px, width, height, flip)))
  }

  /** The pixels in the order the saver writes them: the rows reversed if `flip`. */
  function Shown(px: seq<Rgba>, width: nat, height: nat, flip: bool): (r: seq<Rgba>)
    requires |px| == Times(height, width)
    ensures |r| == |px|
  {
    Counts(width, height);
    if flip then Flipped(px, width, height) else px
  }

  /**
   * `SaveImageToFile` for RGBA images (263-298).  The header check cannot
   * fail for `RGB_8u`, so the early return is not taken.
   */
  method SaveRgbaImage(image: array<Rgba>, width: nat, height: nat, flip: bool) returns (file: seq<byte>)
    requires image.Length == Times(height, width)
    ensures file == RgbaFile(image[..], width, height, flip)
  {
    var header := WriteHeader(width, height, Rgb8u).value;
    var data := new byte[image.Length * 3];
    PackShown(image, data, width, height, flip);
    Counts(width, height);
    file := header + WriteData(width, height, Rgb8u, data[..]);
  }

  /** The two sample loops of `SaveImageToFile`: rows reversed if `flip`, in order otherwise, alpha dropped. */
  method PackShown(image: array<Rgba>, data: array<byte>, width: nat, height: nat, flip: bool)
    requires image.Length == Times(height, width) && data.Length == 3 * image.Length
    modifies data
    ensures data[..] == Packed(Shown(image[..], width, height, flip))
  {
    Counts(width, height);
    if flip {
      FlipPack(image, data, width, height);
    } else {
      PackPixels(image, 0, data, 0, image.Length);
      assert data[..] == data[0..3 * image.Length] && image[..] == image[0..image.Length];
    }
  }

  /**
   * `SaveImageToPNG` (308-328): the colour samples, alpha dropped, through
   * `svpng` without alpha.  The writer's unsigned arithmetic asks for
   * sizes that fit 32 bits.
   */
  method SaveRgbaPng(image: array<Rgba>, width: nat, height: nat) returns (file: seq<byte>)
    requires image.Length == width * height
    requires width < Two32 && height < Two32 && 3 * width + 1 < Two32
    ensures file == Png.Encode(width, height, Packed(image[..]), false)
  {
    var data := new byte[image.Length * 3];
    PackPixels(image, 0, data, 0, image.Length);
    assert data[..] == data[0..3 * image.Length] && image[..] == image[0..image.Length];
    assert |data[..]| == height * (3 * width);
    file := Png.Svpng(width, height, data[..], false);
  }

  /** What `SaveImageToFile` writes for a 16-bit image: a P5 header with maxval 65535, then the samples byte-swapped. */
  function ShortFile(px: seq<u16>, width: nat, height: nat): (file: seq<byte>)
    requires |px| == Times(height, width)
  {
    Counts(width, height);
    assert Channels(Mono16u) == 1 && SampleBytes(Mono16u) == 2;
    assert |LittleEndian16(Swapped(px))| == SampleCount(width, height, 1) * 2;
    WriteHeader(width, height, Mono16u).value + WriteData(width, height, Mono16u, LittleEndian16(Swapped(px)))
  }

  /**
   * `SaveImageToFile` for 16-bit images (380-394): every sample swapped,
   * then written as `MONO_16u`.  The header check cannot fail for
   * `MONO_16u`, so the early return is not taken.
   */
  method SaveShortImage(image: array<u16>, width: nat, height: nat) returns (file: seq<byte>)
    requires image.Length == Times(height, width)
    ensures file == ShortFile(image[..], width, height)
  {
    Counts(width, height);
    var data := new u16[image.Length];
    SwapSamples(image, data, image.Length);
    assert data[..] == data[..image.Length] && image[..] == image[..image.Length];
    assert data[..] == Swapped(image[..]);
    assert Channels(Mono16u) == 1 && SampleBytes(Mono16u) == 2;
    assert |LittleEndian16(data[..])| == SampleCount(width, height, 1) * 2;
    var header := WriteHeader(width, height, Mono16u).value;
    file := header + WriteData(width, height, Mono16u, LittleEndian16(data[..]));
  }

  /* Reading */

  /**
   * What `ReadImageFromFile` makes of a file for an RGBA image: a P3 or P6
   * header of an 8-bit colour image, then its samples, each pixel opaque.
   */
  function ReadRgbaFile(file: seq<byte>): Option<Picture<Rgba>> {
    var (header, rest) :- ReadHeader(file);
    if header.format != Rgb8u || header.width < 0 || header.height < 0 then None
    else
      var samples :- RgbSamples(rest, header.width, header.height, header.binary);
      Counts(header.width, header.height);
      Some(Picture(header.width, header.height, Expanded(samples, Times(header.height, header.width))))
  }

  /** The colour samples of a `width` by `height` image, raw or as text. */
  function RgbSamples(rest: seq<byte>, width: nat, height: nat, binary: bool): (r: Option<seq<byte>>)
    ensures r.Some? ==> |r.value| == SampleCount(width, height, 3)
  {
    if binary then
      var (bytes, _) :- ReadBinary(rest, width, height, Rgb8u);
      Some(bytes)
    else
      var (vs, _) :- AsciiSamples(rest, SampleCount(width, height, 3));
      Some(Stored(vs, ToByte))
  }

  /**
   * `ReadImageFromFile` for RGBA images (420-475), with the corrected
   * header and text-sample readers.  A header of any other kind sends the
   * source to the PNG reader, which without libpng fails.
   */
  method ReadRgbaImage(file: seq<byte>) returns (r: Option<Picture<Rgba>>)
    ensures r == ReadRgbaFile(file)
  {
    var read := ReadHeader(file);
    if read.None? {
      return None;
    }
    var (header, rest) := read.value;
    if header.format != Rgb8u || header.width < 0 || header.height < 0 {
      return None;
    }
    var count := header.width * header.height;
    Counts(header.width, header.height);
    TimesIsProduct(header.height, header.width);
    var data := new byte[count * 3];
    var ok := LoadRgbSamples(rest, header.width, header.height, header.binary, data);
    if !ok {
      return None;
    }
    var pixels := new Rgba[count];
    ExpandPixels(data, pixels, count);
    ghost var samples := RgbSamples(rest, header.width, header.height, header.binary).value;
    assert pixels[..] == pixels[..count] == Expanded(samples, count);
    RgbaFileRead(file, header.width, header.height, rest, samples);
    return Some(Picture(header.width, header.height, pixels[..]));
  }

  /** The reading branches of `ReadImageFromFile` for RGBA images (457-461): raw or text samples into `data`. */
  method LoadRgbSamples(rest: seq<byte>, width: nat, height: nat, binary: bool, data: array<byte>) returns (ok: bool)
    requires data.Length == SampleCount(width, height, 3)
    modifies data
    ensures ok == RgbSamples(rest, width, height, binary).Some?
    ensures ok ==> data[..] == RgbSamples(rest, width, height, binary).value
  {
    if binary {
      var raw := ReadBinary(rest, width, height, Rgb8u);
      if raw.None? {
        return false;
      }
      forall k | 0 <= k < data.Length {
        data[k] := raw.value.0[k];
      }
      return true;
    } else {
      ok := ReadAscii(rest, width, height, Rgb8u, ToByte, data);
      assert data[..] == data[..SampleCount(width, height, 3)];
    }
  }

  /**
   * What `ReadImageFromFile` makes of a file for a 16-bit image: a P2 or
   * P5 header of a 16-bit grey map, then its samples; raw samples are
   * swapped, text samples are not.
   */
  function ReadShortFile(file: seq<byte>): Option<Picture<u16>> {
    var (header, rest) :- ReadHeader(file);
    if (header.format != Mono16s && header.format != Mono16u) || header.width < 0 || header.height < 0 then None
    else
      var samples :- ShortSamples(rest, header.width, header.height, header.format, header.binary);
      Some(Picture(header.width, header.height, samples))
  }

  /** The 16-bit samples of a `width` by `height` grey map as the reader leaves them in the image. */
  function ShortSamples(rest: seq<byte>, width: nat, height: nat, format: Format, binary: bool): (r: Option<seq<u16>>)
    requires format == Mono16s || format == Mono16u
    ensures r.Some? ==> |r.value| == SampleCount(width, height, 1)
  {
    if binary then
      var (bytes, _) :- ReadBinary(rest, width, height, format);
      Some(Swapped(FromLittleEndian16(bytes)))
    else
      var (vs, _) :- AsciiSamples(rest, SampleCount(width, height, 1));
      Some(Stored(vs, ToU16))
  }

  /**
   * `ReadImageFromFile` for 16-bit images (477-525), with the corrected
   * header and text-sample readers.  A header of any other kind sends the
   * source to the PNG reader, which without libpng fails.
   */
  method ReadShortImage(file: seq<byte>) returns (r: Option<Picture<u16>>)
    ensures r == ReadShortFile(file)
  {
    var read := ReadHeader(file);
    if read.None? {
      return None;
    }
    var (header, rest) := read.value;
    if (header.format != Mono16s && header.format != Mono16u) || header.width < 0 || header.height < 0 {
      return None;
    }
    var count := header.width * header.height;
    Counts(header.width, header.height);
    TimesIsProduct(header.height, header.width);
    var data := new u16[count];
    var ok := LoadShortSamples(rest, header.width, header.height, header.format, header.binary, data);
    if !ok {
      return None;
    }
    var pixels := new u16[count];
    StoreShortSamples(data, pixels, header.binary);
    ghost var samples := ShortSamples(rest, header.width, header.height, header.format, header.binary).value;
    assert pixels[..] == samples;
    ShortFileRead(file, header.width, header.height, rest, samples);
    return Some(Picture(header.width, header.height, pixels[..]));
  }

  /** The last loops of `ReadImageFromFile` for 16-bit images (511-520): raw samples swapped, text samples copied. */
  method StoreShortSamples(data: array<u16>, pixels: array<u16>, binary: bool)
    requires data.Length == pixels.Length && data != pixels
    modifies pixels
    ensures pixels[..] == if binary then Swapped(data[..]) else data[..]
  {
    if binary {
      SwapSamples(data, pixels, data.Length);
    } else {
      CopySamples(data, pixels, data.Length);
    }
    assert pixels[..] == pixels[..data.Length] && data[..] == data[..data.Length];
  }

  /**
   * The reading branches of `ReadImageFromFile` for 16-bit images
   * (501-507): raw samples as they lie in memory, or text samples stored
   * as 16 bits.
   */
  method LoadShortSamples(rest: seq<byte>, width: nat, height: nat, format: Format, binary: bool, data: array<u16>)
    returns (ok: bool)
    requires format == Mono16s || format == Mono16u
    requires data.Length == SampleCount(width, height, 1)
    modifies data
    ensures ok == ShortSamples(rest, width, height, format, binary).Some?
    ensures ok ==> binary ==> data[..] == FromLittleEndian16(ReadBinary(rest, width, height, format).value.0)
    ensures ok ==> !binary ==> data[..] == ShortSamples(rest, width, height, format, binary).value
  {
    if binary {
      var raw := ReadBinary(rest, width, height, format);
      if raw.None? {
        return false;
      }
      var samples := FromLittleEndian16(raw.value.0);
      forall k | 0 <= k < data.Length {
        data[k] := samples[k];
      }
      return true;
    } else {
      ok := ReadAscii(rest, width, height, format, ToU16, data);
      assert data[..] == data[..SampleCount(width, height, 1)];
    }
  }

  /** The pixel and sample counts of a `width` by `height` image are the products the source computes. */
  lemma Counts(width: nat, height: nat)
    ensures SampleCount(width, height, 1) == Times(height, width)
    ensures SampleCount(width, height, 3) == 3 * Times(height, width)
  {
    TimesIsProduct(height, width);
    SampleCountIsProduct(width, height, 1);
    SampleCountIsProduct(width, height, 3);
  }

  /* Round trips */

  /**
   * An RGBA image saved as PPM reads back as the same size and the same
   * colours, upside down if it was saved flipped, with every alpha 255.
   */
  lemma RgbaRoundTrip(px: seq<Rgba>, width: nat, height: nat, flip: bool)
    requires |px| == Times(height, width)
    ensures ReadRgbaFile(RgbaFile(px, width, height, flip)) == Some(Picture(width, height, Opaque(Shown(px, width, height, flip))))
  {
    var shown := Shown(px, width, height, flip);
    var samples := Packed(shown);
    var header := WriteHeader(width, height, Rgb8u).value;
    RgbaFileIs(px, width, height, flip, header, samples);
    HeaderRoundTrip(width, height, Rgb8u, samples);
    RawSamplesRead(width, height, Rgb8u, samples);
    assert RgbSamples(samples, width, height, true) == Some(samples);
    RgbaFileRead(header + samples, width, height, samples, samples);
    ExpandPacked(shown);
  }

  /** The saved RGBA file is the header followed by exactly the packed samples. */
  lemma RgbaFileIs(px: seq<Rgba>, width: nat, height: nat, flip: bool, header: seq<byte>, samples: seq<byte>)
    requires |px| == Times(height, width)
    requires header == WriteHeader(width, height, Rgb8u).value && samples == Packed(Shown(px, width, height, flip))
    ensures |samples| == SampleCount(width, height, 3) == 3 * Times(height, width)
    ensures RgbaFile(px, width, height, flip) == header + samples
  {
    Counts(width, height);
    assert Channels(Rgb8u) == 3 && SampleBytes(Rgb8u) == 1;
    var data := WriteData(width, height, Rgb8u, samples);
    assert data == samples;
  }

  /** Raw samples of exactly the image's size, with nothing after them, read back whole. */
  lemma RawSamplesRead(width: nat, height: nat, format: Format, samples: seq<byte>)
    requires SampleBytes(format) != 0
    requires |samples| == SampleCount(width, height, Channels(format)) * SampleBytes(format)
    ensures ReadBinary(samples, width, height, format) == Some((samples, []))
  {
    assert WriteData(width, height, format, samples) == samples;
    DataRoundTrip(width, height, format, samples, []);
    assert samples + [] == samples;
  }

  /** A P3 or P6 file of the given size whose colour samples read as `samples` reads as those samples, expanded. */
  lemma RgbaFileRead(file: seq<byte>, width: nat, height: nat, rest: seq<byte>, samples: seq<byte>)
    requires ReadHeader(file).Some? && ReadHeader(file).value.1 == rest
    requires var header := ReadHeader(file).value.0;
      header.width == width && header.height == height && header.format == Rgb8u
    requires RgbSamples(rest, width, height, ReadHeader(file).value.0.binary) == Some(samples)
    ensures |samples| == 3 * Times(height, width)
    ensures ReadRgbaFile(file) == Some(Picture(width, height, Expanded(samples, Times(height, width))))
  {
    Counts(width, height);
  }

  /** A 16-bit image saved as PGM reads back as the same size and the same samples. */
  lemma ShortRoundTrip(px: seq<u16>, width: nat, height: nat)
    requires |px| == Times(height, width)
    ensures ReadShortFile(ShortFile(px, width, height)) == Some(Picture(width, height, px))
  {
    var raw := LittleEndian16(Swapped(px));
    var header := WriteHeader(width, height, Mono16u).value;
    ShortFileIs(px, width, height, header, raw);
    HeaderRoundTrip(width, height, Mono16u, raw);
    RawSamplesRead(width, height, Mono16u, raw);
    LittleEndian16RoundTrip(Swapped(px));
    SwappedTwice(px);
    RawShortSamples(raw, width, height);
    ShortFileRead(header + raw, width, height, raw, px);
  }

  /** The saved 16-bit file is the header followed by exactly the swapped samples, two bytes each. */
  lemma ShortFileIs(px: seq<u16>, width: nat, height: nat, header: seq<byte>, raw: seq<byte>)
    requires |px| == Times(height, width)
    requires header == WriteHeader(width, height, Mono16u).value && raw == LittleEndian16(Swapped(px))
    ensures |raw| == SampleCount(width, height, 1) * 2
    ensures ShortFile(px, width, height) == header + raw
  {
    Counts(width, height);
    assert WriteData(width, height, Mono16u, raw) == raw;
  }

  /** A P2 or P5 file whose samples read as `samples` reads as an image of those samples. */
  lemma ShortFileRead(file: seq<byte>, width: nat, height: nat, raw: seq<byte>, samples: seq<u16>)
    requires ReadHeader(file).Some? && ReadHeader(file).value.1 == raw
    requires var header := ReadHeader(file).value.0;
      header.width == width && header.height == height && (header.format == Mono16s || header.format == Mono16u)
    requires ShortSamples(raw, width, height, ReadHeader(file).value.0.format, ReadHeader(file).value.0.binary) == Some(samples)
    ensures ReadShortFile(file) == Some(Picture(width, height, samples))
  {
  }

  /** Raw 16-bit samples that fill the rest of the file are its bytes paired up and swapped. */
  lemma RawShortSamples(raw: seq<byte>, width: nat, height: nat)
    requires |raw| == SampleCount(width, height, 1) * 2
    requires ReadBinary(raw, width, height, Mono16u) == Some((raw, []))
    ensures ShortSamples(raw, width, height, Mono16u, true) == Some(Swapped(FromLittleEndian16(raw)))
  {
  }

  /**
   * The swap applies to raw samples only: a raw sample is read most
   * significant byte first, as Netpbm stores it, while a text sample is
   * taken as its value modulo 2^16.
   */
  lemma ShortSampleValues(rest: seq<byte>, width: nat, height: nat, format: Format, binary: bool, i: nat)
    requires format == Mono16s || format == Mono16u
    requires ShortSamples(rest, width, height, format, binary).Some? && i < SampleCount(width, height, 1)
    ensures binary ==>
      var raw := ReadBinary(rest, width, height, format).value.0;
      2 * i + 1 < |raw| &&
      ShortSamples(rest, width, height, format, binary).value[i] as int == 256 * raw[2 * i] as int + raw[2 * i + 1] as int
    ensures !binary ==>
      var vs := AsciiSamples(rest, SampleCount(width, height, 1)).value.0;
      i < |vs| && ShortSamples(rest, width, height, format, binary).value[i] as int == vs[i] % 0x1_0000
  {
    if binary {
      var raw := ReadBinary(rest, width, height, format).value.0;
      FromLittleEndian16At(raw, i);
    } else {
      var vs := AsciiSamples(rest, SampleCount(width, height, 1)).value.0;
      StoredAt(vs, ToU16, i);
    }
  }
}
