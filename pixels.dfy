/**
 * The pixel loops of the image savers and readers: RGBA pixels packed into
 * three-channel samples (optionally with the rows in reverse order),
 * three-channel samples expanded to opaque RGBA pixels, and the byte swap
 * of 16-bit depth samples.
 *
 * Buffers are arrays; each loop is proved against a function on
 * sequences, and the properties the file format relies on are lemmas about
 * those functions.
 */
module Pixels {
  import opened Bytes
  import opened Grid

  /** `ORUtils::Vector4<unsigned char>`: red, green, blue, alpha. */
  datatype Rgba = Rgba(x: byte, y: byte, z: byte, w: byte)

  /** The three colour samples of a pixel, in file order. */
  function Rgb(p: Rgba): seq<byte> {
    [p.x, p.y, p.z]
  }

  /** Pixels as three-channel samples: the colour samples of each pixel in turn, alpha dropped. */
  function Packed(px: seq<Rgba>): (r: seq<byte>)
    ensures |r| == 3 * |px|
    decreases |px|
  {
    if px == [] then [] else Packed(px[..|px| - 1]) + Rgb(px[|px| - 1])
  }

  /** Three-channel samples as `n` pixels, each with alpha 255. */
  function Expanded(data: seq<byte>, n: nat): (r: seq<Rgba>)
    requires 3 * n <= |data|
    ensures |r| == n
    decreases n
  {
    if n == 0 then []
    else Expanded(data, n - 1) + [Rgba(data[3 * n - 3], data[3 * n - 2], data[3 * n - 1], 255)]
  }

  /** The pixels with alpha set to 255. */
  function Opaque(px: seq<Rgba>): (r: seq<Rgba>)
    ensures |r| == |px|
  {
    seq(|px|, i requires 0 <= i < |px| => px[i].(w := 255))
  }

  /**
   * The rows of a `width` by `height` image in reverse order, the bottom
   * row first: each pixel keeps its column.
   */
  function Flipped(px: seq<Rgba>, width: nat, height: nat): (r: seq<Rgba>)
    requires |px| == Times(height, width)
    ensures |r| == |px|
    decreases height
  {
    if height == 0 then []
    else px[Times(height - 1, width)..] + Flipped(px[..Times(height - 1, width)], width, height - 1)
  }

  /**
   * A 16-bit sample with its two bytes exchanged:
   * `(v << 8) | ((v >> 8) & 255)` stored back into 16 bits.  The shift left
   * keeps the low byte, now high; the shift right and mask give the high
   * byte, now low; the two do not overlap, so the `|` adds them.  This
   * holds for `short` as well, whose sign bits the mask removes.  The low
   * byte of the result is the high byte of `v` and the other way round.
   */
  function Swap(v: u16): (r: u16)
    ensures r % 256 == v / 256 && r / 256 == v % 256
  {
    ((v % 256) * 256 + v / 256) as u16
  }

  /** Every sample byte-swapped. */
  function Swapped(vs: seq<u16>): (r: seq<u16>)
    ensures |r| == |vs|
  {
    seq(|vs|, i requires 0 <= i < |vs| => Swap(vs[i]))
  }

  /* The loops */

  /**
   * `data[(dst + i) * 3 + c] = image[src + i].c` for `i < count` and the
   * three colour channels `c`: the packing loop of the savers (290-294,
   * 318-322, with `src = dst = 0`), and one row of the flipping loop
   * (277-286).  Nothing outside the `count` pixels' samples changes.
   */
  method PackPixels(image: array<Rgba>, src: nat, data: array<byte>, dst: nat, count: nat)
    requires src + count <= image.Length && 3 * (dst + count) <= data.Length
    modifies data
    ensures data[3 * dst..3 * (dst + count)] == Packed(image[src..src + count])
    ensures forall k | 0 <= k < data.Length && !(3 * dst <= k < 3 * (dst + count)) :: data[k] == old(data[k])
  {
    var i := 0;
    while i < count
      invariant 0 <= i <= count
      invariant data[3 * dst..3 * (dst + i)] == Packed(image[src..src + i])
      invariant forall k | 0 <= k < data.Length && !(3 * dst <= k < 3 * (dst + i)) :: data[k] == old(data[k])
    {
      ghost var before := data[..];
      data[(dst + i) * 3 + 0] := image[src + i].x;
      data[(dst + i) * 3 + 1] := image[src + i].y;
      data[(dst + i) * 3 + 2] := image[src + i].z;
      ghost var px := image[src..src + i + 1];
      assert px[..|px| - 1] == image[src..src + i];
      SliceUnchanged(before, data[..], 3 * dst, 3 * (dst + i));
      LastPixel(data[..], 3 * (dst + i), px[i]);
      PackStep(data[..], px, 3 * dst, 3 * (dst + i));
      i := i + 1;
    }
  }

  /**
   * `SaveImageToFile`'s flipping loop (277-286): row `y` of the image goes
   * to row `height - y - 1` of the samples, so the samples are the packed
   * image upside down.
   */
  method FlipPack(image: array<Rgba>, data: array<byte>, width: nat, height: nat)
    requires image.Length == Times(height, width) && data.Length == 3 * image.Length
    modifies data
    ensures data[..] == Packed(Flipped(image[..], width, height))
  {
    var y := 0;
    while y < height
      invariant y <= height && RowsFlipped(image[..], data[..], width, height, y)
    {
      FlipRow(image, data, width, height, y);
      y := y + 1;
    }
    assert image[..Times(height, width)] == image[..];
    assert data[3 * Times(0, width)..] == data[..];
  }

  /** The inner loop of the flipping loop: one more row in place. */
  method FlipRow(image: array<Rgba>, data: array<byte>, width: nat, height: nat, y: nat)
    requires y < height && RowsFlipped(image[..], data[..], width, height, y)
    modifies data
    ensures RowsFlipped(image[..], data[..], width, height, y + 1)
  {
    RowOffsets(y, height, width);
    ghost var before := data[..];
    PackPixels(image, y * width, data, (height - y - 1) * width, width);
    RowFlipped(before, data[..], image[..], width, height, y, y * width, (height - y - 1) * width);
  }

  /** Where row `y` starts in the image, and where the flipping loop writes it. */
  lemma RowOffsets(y: nat, height: nat, width: nat)
    requires y < height
    ensures y * width == Times(y, width) && Times(y, width) + width == Times(y + 1, width) <= Times(height, width)
    ensures (height - y - 1) * width == Times(height - y - 1, width)
    ensures Times(height - y - 1, width) + width == Times(height - y, width) <= Times(height, width)
  {
    Within(y, height, width);
    Within(height - y - 1, height, width);
    TimesIsProduct(y, width);
    TimesIsProduct(height - y - 1, width);
  }

  /** The first `y` rows of the image are packed, flipped, into the last `y` rows of the samples. */
  ghost predicate RowsFlipped(px: seq<Rgba>, samples: seq<byte>, width: nat, height: nat, y: nat) {
    y <= height && |px| == Times(height, width) && |samples| == 3 * |px|
    && Times(y, width) <= |px| && Times(height - y, width) <= |px|
    && samples[3 * Times(height - y, width)..] == Packed(Flipped(px[..Times(y, width)], width, y))
  }

  /** Row `y` packed where the flipping loop puts it, and nothing else changed, flips one more row. */
  lemma RowFlipped(before: seq<byte>, after: seq<byte>, px: seq<Rgba>, width: nat, height: nat, y: nat, src: nat, dst: nat)
    requires y < height && RowsFlipped(px, before, width, height, y) && |after| == |before|
    requires src == y * width && dst == (height - y - 1) * width
    requires src + width <= |px| && 3 * (dst + width) <= |after|
    requires after[3 * dst..3 * (dst + width)] == Packed(px[src..src + width])
    requires forall k | 0 <= k < |after| && !(3 * dst <= k < 3 * (dst + width)) :: after[k] == before[k]
    ensures RowsFlipped(px, after, width, height, y + 1)
  {
    RowOffsets(y, height, width);
    var row, done := px[src..src + width], px[..src];
    assert before[3 * (dst + width)..] == Packed(Flipped(done, width, y));
    RowInFront(before, after, row, Flipped(done, width, y), 3 * dst, 3 * (dst + width));
    var rows := px[..src + width];
    assert rows[..src] == done && rows[src..] == row;
    assert Flipped(rows, width, y + 1) == row + Flipped(done, width, y);
  }

  /** Samples of a row written just in front of packed rows that stayed put: the row's pixels first, packed. */
  lemma RowInFront(before: seq<byte>, after: seq<byte>, row: seq<Rgba>, rest: seq<Rgba>, lo: nat, hi: nat)
    requires lo <= hi <= |after| == |before|
    requires before[hi..] == Packed(rest) && after[lo..hi] == Packed(row)
    requires forall k | hi <= k < |after| :: after[k] == before[k]
    ensures after[lo..] == Packed(row + rest)
  {
    SliceUnchanged(before, after, hi, |after|);
    assert after[hi..] == after[hi..|after|] && before[hi..] == before[hi..|before|];
    SliceSplit(after, lo, hi, |after|);
    assert after[lo..] == after[lo..|after|];
    PackedAppend(row, rest);
  }


  /**
   * `ReadImageFromFile`'s expanding loop (466-470): pixel `i` takes samples
   * `3i`, `3i + 1`, `3i + 2` as its colour and 255 as its alpha.
   */
  method ExpandPixels(data: array<byte>, pixels: array<Rgba>, count: nat)
    requires 3 * count <= data.Length && count <= pixels.Length
    modifies pixels
    ensures pixels[..count] == Expanded(data[..], count)
    ensures pixels[count..] == old(pixels[count..])
  {
    var i := 0;
    while i < count
      invariant 0 <= i <= count
      invariant pixels[..i] == Expanded(data[..], i)
      invariant pixels[count..] == old(pixels[count..])
    {
      pixels[i] := Rgba(data[i * 3 + 0], data[i * 3 + 1], data[i * 3 + 2], 255);
      assert pixels[..i + 1] == pixels[..i] + [pixels[i]];
      i := i + 1;
    }
  }

  /**
   * The byte swap loops of the 16-bit saver (386) and of the raw path of
   * the 16-bit reader (513-515).
   */
  method SwapSamples(source: array<u16>, target: array<u16>, count: nat)
    requires count <= source.Length && count <= target.Length && source != target
    modifies target
    ensures target[..count] == Swapped(source[..count])
    ensures target[count..] == old(target[count..])
  {
    var i := 0;
    while i < count
      invariant 0 <= i <= count
      invariant forall k | 0 <= k < i :: target[k] == Swap(source[k])
      invariant target[count..] == old(target[count..])
    {
      target[i] := Swap(source[i]);
      i := i + 1;
    }
  }

  /** The plain copy of the text path of the 16-bit reader (517-519): no swap. */
  method CopySamples(source: array<u16>, target: array<u16>, count: nat)
    requires count <= source.Length && count <= target.Length && source != target
    modifies target
    ensures target[..count] == source[..count]
    ensures target[count..] == old(target[count..])
  {
    var i := 0;
    while i < count
      invariant 0 <= i <= count
      invariant forall k | 0 <= k < i :: target[k] == source[k]
      invariant target[count..] == old(target[count..])
    {
      target[i] := source[i];
      i := i + 1;
    }
  }

  /* Properties */

  /** Sample `3i + c` of the packed pixels is channel `c` of pixel `i`. */
  lemma {:induction false} PackedAt(px: seq<Rgba>, i: nat)
    requires i < |px|
    ensures Packed(px)[3 * i..3 * i + 3] == Rgb(px[i])
    decreases |px|
  {
    var front := px[..|px| - 1];
    if i < |front| {
      PackedAt(front, i);
      assert Packed(px)[3 * i..3 * i + 3] == Packed(front)[3 * i..3 * i + 3];
    }
  }

  /** Packing distributes over concatenation. */
  lemma {:induction false} PackedAppend(a: seq<Rgba>, b: seq<Rgba>)
    ensures Packed(a + b) == Packed(a) + Packed(b)
    decreases |b|
  {
    if b == [] {
      assert a + b == a;
    } else {
      var front := b[..|b| - 1];
      assert (a + b)[..|a + b| - 1] == a + front;
      PackedAppend(a, front);
      AppendAssoc(Packed(a), Packed(front), Rgb(b[|b| - 1]));
    }
  }

  /** Expanding what was packed restores the pixels, with alpha 255. */
  lemma {:induction false} ExpandPacked(px: seq<Rgba>)
    ensures Expanded(Packed(px), |px|) == Opaque(px)
    decreases |px|
  {
    if px != [] {
      var n := |px|;
      var front := px[..n - 1];
      ExpandPacked(front);
      ExpandedPrefix(Packed(px), Packed(front), n - 1);
      PackedAt(px, n - 1);
      assert Opaque(px) == Opaque(front) + [px[n - 1].(w := 255)];
    }
  }

  /** Packing what was expanded gives back the samples. */
  lemma {:induction false} PackExpanded(data: seq<byte>, n: nat)
    requires 3 * n <= |data|
    ensures Packed(Expanded(data, n)) == data[..3 * n]
    decreases n
  {
    if n > 0 {
      var px := Expanded(data, n);
      assert px[..n - 1] == Expanded(data, n - 1);
      PackExpanded(data, n - 1);
      assert data[..3 * n] == data[..3 * n - 3] + data[3 * n - 3..3 * n];
    }
  }

  /** Expansion reads only the first `3n` samples. */
  lemma {:induction false} ExpandedPrefix(data: seq<byte>, prefix: seq<byte>, n: nat)
    requires 3 * n <= |prefix| <= |data| && prefix == data[..|prefix|]
    ensures Expanded(data, n) == Expanded(prefix, n)
    decreases n
  {
    if n > 0 {
      ExpandedPrefix(data, prefix, n - 1);
    }
  }

  /** Pixel `i` of the expansion has samples `3i`, `3i + 1`, `3i + 2` as colour and alpha 255. */
  lemma {:induction false} ExpandedAt(data: seq<byte>, n: nat, i: nat)
    requires 3 * n <= |data| && i < n
    ensures Expanded(data, n)[i] == Rgba(data[3 * i], data[3 * i + 1], data[3 * i + 2], 255)
    decreases n
  {
    if i < n - 1 {
      ExpandedAt(data, n - 1, i);
    }
  }

  /** Flipping the rows twice gives back the image. */
  lemma {:induction false} FlipTwice(px: seq<Rgba>, width: nat, height: nat)
    requires |px| == Times(height, width)
    ensures Flipped(Flipped(px, width, height), width, height) == px
    decreases height
  {
    if height > 0 {
      var k := Times(height - 1, width);
      var front, last := px[..k], px[k..];
      FlipTwice(front, width, height - 1);
      FlipFront(last, Flipped(front, width, height - 1), width, height - 1);
      assert px == front + last;
    }
  }

  /** Flipping an image whose first row is `row` puts that row last. */
  lemma {:induction false} FlipFront(row: seq<Rgba>, rest: seq<Rgba>, width: nat, height: nat)
    requires |row| == width && |rest| == Times(height, width)
    ensures Flipped(row + rest, width, height + 1) == Flipped(rest, width, height) + row
    decreases height
  {
    var px := row + rest;
    if height == 0 {
      assert px[Times(0, width)..] == row;
    } else {
      var k := Times(height - 1, width);
      assert px[Times(height, width)..] == rest[k..];
      assert px[..Times(height, width)] == row + rest[..k];
      FlipFront(row, rest[..k], width, height - 1);
      AppendAssoc(rest[k..], Flipped(rest[..k], width, height - 1), row);
    }
  }

  /**
   * The flipping loop's index map: pixel `x` of row `y` lands at pixel `x`
   * of row `height - y - 1`.
   */
  lemma {:induction false} FlippedAt(px: seq<Rgba>, width: nat, height: nat, x: nat, y: nat)
    requires |px| == Times(height, width) && x < width && y < height
    ensures Times(height - y - 1, width) + x < |px| && Times(y, width) + x < |px|
    ensures Flipped(px, width, height)[Times(height - y - 1, width) + x] == px[Times(y, width) + x]
    decreases height
  {
    var k := Times(height - 1, width);
    var last, front := px[k..], px[..k];
    assert Flipped(px, width, height) == last + Flipped(front, width, height - 1);
    Within(y, height, width);
    Within(height - y - 1, height, width);
    if y < height - 1 {
      var above := height - y - 2;
      assert Times(height - y - 1, width) == Times(above, width) + width;
      Within(y, height - 1, width);
      FlippedAt(front, width, height - 1, x, y);
    }
  }

  /** Swapping twice restores the sample. */
  lemma SwapTwice(v: u16)
    ensures Swap(Swap(v)) == v
  {
    var lo, hi := v % 256, v / 256;
    assert Swap(v) as int == lo as int * 256 + hi as int;
    assert Swap(v) % 256 == hi && Swap(v) / 256 == lo;
  }

  /** Swapping every sample twice restores the samples. */
  lemma SwappedTwice(vs: seq<u16>)
    ensures Swapped(Swapped(vs)) == vs
  {
    forall i | 0 <= i < |vs|
      ensures Swapped(Swapped(vs))[i] == vs[i]
    {
      SwapTwice(vs[i]);
    }
  }

  /**
   * A swapped sample lies in memory of a little-endian host most
   * significant byte first: swapping is what makes the raw samples big
   * endian, as Netpbm requires.
   */
  lemma SwapIsBigEndian(v: u16)
    ensures U16Le(Swap(v) as nat) == [(v / 256) as byte, (v % 256) as byte]
  {
    var lo, hi := v % 256, v / 256;
    assert Swap(v) as int == lo as int * 256 + hi as int;
  }

  /* Steps of the loop proofs */

  /** One more pixel packed: its three samples written after those already packed. */
  lemma PackStep(written: seq<byte>, px: seq<Rgba>, lo: nat, mid: nat)
    requires |px| > 0 && lo <= mid && mid + 3 <= |written|
    requires written[lo..mid] == Packed(px[..|px| - 1]) && written[mid..mid + 3] == Rgb(px[|px| - 1])
    ensures written[lo..mid + 3] == Packed(px)
  {
    SliceSplit(written, lo, mid, mid + 3);
  }

  lemma SliceUnchanged<T>(before: seq<T>, after: seq<T>, lo: nat, hi: nat)
    requires lo <= hi <= |before| && hi <= |after|
    requires forall k | lo <= k < hi :: after[k] == before[k]
    ensures after[lo..hi] == before[lo..hi]
  {
  }

  lemma LastPixel(s: seq<byte>, at: nat, p: Rgba)
    requires at + 3 <= |s| && s[at] == p.x && s[at + 1] == p.y && s[at + 2] == p.z
    ensures s[at..at + 3] == Rgb(p)
  {
  }

  lemma SliceSplit<T>(s: seq<T>, lo: nat, mid: nat, hi: nat)
    requires lo <= mid <= hi <= |s|
    ensures s[lo..hi] == s[lo..mid] + s[mid..hi]
  {
  }


}
