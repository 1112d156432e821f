/**
 * The formatted input and output the Netpbm header and ASCII sample code
 * relies on, at the level of bytes: the `fscanf` conversions `%[^ \n\t]`
 * and `%i`, and the `fprintf` conversion `%i`, in the C locale.
 *
 * `%i` skips white space, takes an optional sign, then reads the number in
 * the base its prefix selects: `0x` or `0X` hexadecimal, a leading `0`
 * octal, decimal otherwise.  As in the C library, a `0x` prefix with no
 * hexadecimal digit after it reads as zero.
 */
module Scan {
  import opened Bytes
  import opened Wrappers

  /**
   * The outcome of one `fscanf` conversion: the value and the input left
   * after it; a matching failure (`fscanf` returns 0); or the end of the
   * input before any character could match (`fscanf` returns `EOF`).
   */
  datatype Scanned<T> = Matched(value: T, rest: seq<byte>) | Mismatch | AtEnd

  const Plus: byte := 0x2B
  const Minus: byte := 0x2D
  const Zero: byte := 0x30
  const Space: byte := 0x20
  const Newline: byte := 0x0A

  /** `isspace` in the C locale: space, tab, newline, vertical tab, form feed, carriage return. */
  predicate IsSpace(u: byte) {
    u == Space || 9 <= u <= 13
  }

  /** The input after the leading white space that `%i` skips. */
  function SkipSpace(s: seq<byte>): (r: seq<byte>)
    ensures |r| <= |s| && r == s[|s| - |r|..]
    ensures forall i | 0 <= i < |s| - |r| :: IsSpace(s[i])
    ensures r == [] || !IsSpace(r[0])
    decreases |s|
  {
    if s != [] && IsSpace(s[0]) then SkipSpace(s[1..]) else s
  }

  /** The bytes `%[^ \n\t]` stops at: space, newline and tab. */
  predicate IsDelimiter(u: byte) {
    u == Space || u == Newline || u == 9
  }

  /** The length of the longest prefix of `s` free of delimiters. */
  function WordLength(s: seq<byte>): (n: nat)
    ensures n <= |s|
    ensures forall i | 0 <= i < n :: !IsDelimiter(s[i])
    ensures n == |s| || IsDelimiter(s[n])
    decreases |s|
  {
    if s == [] || IsDelimiter(s[0]) then 0 else 1 + WordLength(s[1..])
  }

  /**
   * `fscanf(f, "%[^ \n\t]", buf)`: no white space is skipped, and at least
   * one byte must match.
   */
  function ScanWord(s: seq<byte>): (r: Scanned<seq<byte>>)
    ensures r.AtEnd? <==> s == []
    ensures r.Matched? <==> s != [] && !IsDelimiter(s[0])
    ensures r.Matched? ==>
      r.value != [] && r.value + r.rest == s
      && (forall i | 0 <= i < |r.value| :: !IsDelimiter(r.value[i]))
      && (r.rest == [] || IsDelimiter(r.rest[0]))
  {
    if s == [] then AtEnd
    else if IsDelimiter(s[0]) then Mismatch
    else
      var n := WordLength(s);
      assert s[..n] + s[n..] == s;
      Matched(s[..n], s[n..])
  }

  /** A digit of base 8, 10 or 16 (either case for 16). */
  predicate IsDigit(u: byte, base: nat) {
    if base == 16 then 0x30 <= u <= 0x39 || 0x41 <= u <= 0x46 || 0x61 <= u <= 0x66
    else 0x30 <= u as int < 0x30 + base
  }

  /** The value of a digit byte. */
  function DigitValue(u: byte): nat {
    if u <= 0x39 then (if u < 0x30 then 0 else u as nat - 0x30)
    else if u <= 0x46 then (if u < 0x41 then 0 else u as nat - 0x37)
    else if u < 0x61 then 0 else u as nat - 0x57
  }

  /** The length of the longest prefix of `s` made of digits of `base`. */
  function DigitRun(s: seq<byte>, base: nat): (n: nat)
    ensures n <= |s|
    ensures forall i | 0 <= i < n :: IsDigit(s[i], base)
    ensures n == |s| || !IsDigit(s[n], base)
    decreases |s|
  {
    if s == [] || !IsDigit(s[0], base) then 0 else 1 + DigitRun(s[1..], base)
  }

  /** The number that digits denote in `base`, most significant first. */
  function Number(d: seq<byte>, base: nat): nat
    decreases |d|
  {
    if d == [] then 0 else Number(d[..|d| - 1], base) * base + DigitValue(d[|d| - 1])
  }

  /**
   * The unsigned part of `%i`: the base its prefix selects, then the longest
   * run of digits of that base.  Fails when a decimal number has no digit.
   */
  function ScanMagnitude(u: seq<byte>): Option<(nat, seq<byte>)> {
    var hex := |u| >= 2 && u[0] == Zero && (u[1] == 0x78 || u[1] == 0x58);
    var base := if hex then 16 else if u != [] && u[0] == Zero then 8 else 10;
    var start := if hex then 2 else 0;
    var n := DigitRun(u[start..], base);
    if !hex && n == 0 then None
    else Some((Number(u[start..][..n], base), u[start + n..]))
  }

  /**
   * `fscanf(f, "%i", &v)`, with the value unbounded (see the notes on 32-bit
   * overflow).  It meets the end of the input exactly when nothing but white
   * space is left.
   */
  function ScanInt(s: seq<byte>): (r: Scanned<int>)
    ensures r.AtEnd? <==> SkipSpace(s) == []
  {
    var t := SkipSpace(s);
    if t == [] then AtEnd
    else
      var u := if t[0] == Plus || t[0] == Minus then t[1..] else t;
      match ScanMagnitude(u)
      case None => Mismatch
      case Some((v, rest)) => Matched(if t[0] == Minus then -(v as int) else v, rest)
  }

  /** The decimal digits of `n`, most significant first, without leading zeros. */
  function Digits(n: nat): (r: seq<byte>)
    ensures 1 <= |r| && (forall i | 0 <= i < |r| :: IsDigit(r[i], 10))
    ensures Number(r, 10) == n
    ensures r[0] == Zero <==> n == 0
    decreases n
  {
    if n < 10 then [(0x30 + n) as byte]
    else
      var r := Digits(n / 10) + [(0x30 + n % 10) as byte];
      assert r[..|r| - 1] == Digits(n / 10);
      r
  }

  /** `fprintf(f, "%i", v)`: a minus sign for a negative value, then the decimal digits. */
  function Decimal(v: int): (r: seq<byte>)
    ensures r != [] && forall i | 0 <= i < |r| :: !IsSpace(r[i]) && !IsDelimiter(r[i])
    ensures r[0] == Minus <==> v < 0
  {
    if v < 0 then [Minus] + Digits(-v) else Digits(v)
  }

  /** A word followed by a delimiter, or by nothing, scans back as that word. */
  lemma ScanWordOf(word: seq<byte>, rest: seq<byte>)
    requires word != [] && forall i | 0 <= i < |word| :: !IsDelimiter(word[i])
    requires rest == [] || IsDelimiter(rest[0])
    ensures ScanWord(word + rest) == Matched(word, rest)
  {
    var s := word + rest;
    WordLengthOf(word, rest);
    assert s[..|word|] == word && s[|word|..] == rest;
  }

  lemma {:induction false} WordLengthOf(word: seq<byte>, rest: seq<byte>)
    requires forall i | 0 <= i < |word| :: !IsDelimiter(word[i])
    requires rest == [] || IsDelimiter(rest[0])
    ensures WordLength(word + rest) == |word|
    decreases |word|
  {
    if word == [] {
      assert word + rest == rest;
    } else {
      assert (word + rest)[1..] == word[1..] + rest;
      WordLengthOf(word[1..], rest);
    }
  }

  /** Digits of `base` followed by a non-digit, or by nothing, form a run of exactly their length. */
  lemma {:induction false} DigitRunOf(d: seq<byte>, rest: seq<byte>, base: nat)
    requires forall i | 0 <= i < |d| :: IsDigit(d[i], base)
    requires rest == [] || !IsDigit(rest[0], base)
    ensures DigitRun(d + rest, base) == |d|
    decreases |d|
  {
    if d == [] {
      assert d + rest == rest;
    } else {
      assert (d + rest)[1..] == d[1..] + rest;
      DigitRunOf(d[1..], rest, base);
    }
  }

  /** White space before `t` is skipped up to `t`, when `t` does not start with white space. */
  lemma {:induction false} SkipSpaceOf(ws: seq<byte>, t: seq<byte>)
    requires forall i | 0 <= i < |ws| :: IsSpace(ws[i])
    requires t == [] || !IsSpace(t[0])
    ensures SkipSpace(ws + t) == t
    decreases |ws|
  {
    if ws == [] {
      assert ws + t == t;
    } else {
      assert (ws + t)[1..] == ws[1..] + t;
      SkipSpaceOf(ws[1..], t);
    }
  }

  /** The digits of a number, followed by white space or nothing, read back as that number. */
  lemma MagnitudeOfDigits(m: nat, rest: seq<byte>)
    requires rest == [] || IsSpace(rest[0])
    ensures ScanMagnitude(Digits(m) + rest) == Some((m, rest))
  {
    var d := Digits(m);
    var u := d + rest;
    assert u[..|d|] == d && u[|d|..] == rest && u[0..] == u;
    if m == 0 {
      assert d == [Zero] && d[..1] == d;
      assert Number(d, 8) == 0;
      DigitRunOf(d, rest, 8);
    } else {
      DigitRunOf(d, rest, 10);
    }
  }

  /**
   * What `fprintf` writes with `%i`, `fscanf` reads back with `%i`, after
   * any white space and up to the white space (or end) that follows it.
   */
  lemma ScanDecimal(ws: seq<byte>, v: int, rest: seq<byte>)
    requires forall i | 0 <= i < |ws| :: IsSpace(ws[i])
    requires rest == [] || IsSpace(rest[0])
    ensures ScanInt(ws + Decimal(v) + rest) == Matched(v, rest)
  {
    var m: nat := if v < 0 then -v else v;
    var d := Digits(m);
    MagnitudeOfDigits(m, rest);
    var t := Decimal(v) + rest;
    AppendAssoc(ws, Decimal(v), rest);
    SkipSpaceOf(ws, t);
    if v < 0 {
      assert Decimal(v) == [Minus] + d;
      SecondOn(Minus, d, rest);
      ScanNegative(ws + t, t, m, rest);
    } else {
      ScanUnsigned(ws + t, t, m, rest);
    }
  }

  /** `%i` on input whose first byte after white space is a minus sign. */
  lemma ScanNegative(s: seq<byte>, t: seq<byte>, m: nat, rest: seq<byte>)
    requires SkipSpace(s) == t && t != [] && t[0] == Minus
    requires ScanMagnitude(t[1..]) == Some((m, rest))
    ensures ScanInt(s) == Matched(-(m as int), rest)
  {
    assert t[0] == Minus != Plus;
    var u := t[1..];
    assert ScanMagnitude(u) == Some((m, rest));
  }

  /** `%i` on input whose first byte after white space is not a sign. */
  lemma ScanUnsigned(s: seq<byte>, t: seq<byte>, m: nat, rest: seq<byte>)
    requires SkipSpace(s) == t && t != [] && t[0] != Minus && t[0] != Plus
    requires ScanMagnitude(t) == Some((m, rest))
    ensures ScanInt(s) == Matched(m, rest)
  {
  }

  /** What follows the first byte. */
  lemma SecondOn(u: byte, d: seq<byte>, rest: seq<byte>)
    ensures ([u] + d + rest)[1..] == d + rest && ([u] + d + rest)[0] == u
  {
  }
}
