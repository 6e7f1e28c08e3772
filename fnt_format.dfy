/**
 * The .fnt file layout as a specification: where each field of the header
 * lies, which bytes a successful load reads and what it makes of them
 * (`Decode`), and, as its partner, how a writer of the format lays a font out
 * (`Encode`).
 *
 *   offset  field          size
 *        0  version        4       "RB11"
 *        4  name           64      space padded
 *       68  copyright      256     space padded, not stored
 *      324  maxwidth       u16
 *      326  height         u16
 *      328  ascent         u16
 *      330  pad            u16     consumed, not stored
 *      332  firstchar      u32
 *      336  defaultchar    u32
 *      340  size           u32     number of glyphs
 *      344  nbits          u32     words of bitmap data
 *      348  noffset        u32     nonzero: an offset section is present
 *      352  nwidth         u32     nonzero: a width section is present
 *      356  bits           nbits u16 words
 *           offsets        size u32 values, right after the bits, no alignment gap
 *           widths         size bytes
 */
module FntFormat {
  import opened Wrappers
  import opened Bytes
  import opened CStrings

  /** VERSION: the magic and version bytes "RB11". */
  const Magic: seq<byte> := [0x52, 0x42, 0x31, 0x31]

  const NameLen := 64
  const CopyrightLen := 256

  const NameAt := 4
  const CopyrightAt := 68
  const MaxWidthAt := 324
  const HeightAt := 326
  const AscentAt := 328
  const PadAt := 330
  const FirstCharAt := 332
  const DefaultCharAt := 336
  const SizeAt := 340
  const NBitsAt := 344
  const NOffsetAt := 348
  const NWidthAt := 352
  const HeaderSize := 356

  /** Why a load fails. Overrun is the case the source does not check (see FillIndices). */
  datatype LoadError = BadMagic | Truncated | Overrun

  /** The contents of a loaded font record (MWCFONT) as values. */
  datatype FontImage = FontImage(
    name: seq<byte>,
    maxwidth: u16,
    height: u16,
    ascent: u16,
    firstchar: u32,
    defaultchar: u32,
    size: u32,
    bits: seq<u16>,
    offsets: Option<seq<u32>>,
    widths: Option<seq<byte>>)

  function ShortAt(s: seq<byte>, p: nat): u16
    requires p + 2 <= |s|
  {
    LeShort(s[p..p + 2])
  }

  function LongAt(s: seq<byte>, p: nat): u32
    requires p + 4 <= |s|
  {
    LeLong(s[p..p + 4])
  }

  /** `n` consecutive u16 values starting at byte `p`. */
  function ShortsAt(s: seq<byte>, p: nat, n: nat): (r: seq<u16>)
    requires p + 2 * n <= |s|
  {
    seq(n, i requires 0 <= i < n => ShortAt(s, p + 2 * i))
  }

  /** `n` consecutive u32 values starting at byte `p`. */
  function LongsAt(s: seq<byte>, p: nat, n: nat): (r: seq<u32>)
    requires p + 4 * n <= |s|
  {
    seq(n, i requires 0 <= i < n => LongAt(s, p + 4 * i))
  }

  /** The header counts admit a fill loop that writes past its buffer. */
  predicate Overruns(size: u32, noffset: u32, nwidth: u32)
  {
    (noffset != 0 && noffset < size) || (nwidth != 0 && nwidth < size)
  }

  function OffsetsStart(nbits: u32): nat
  {
    HeaderSize + 2 * nbits
  }

  function WidthsStart(size: u32, nbits: u32, noffset: u32): nat
  {
    OffsetsStart(nbits) + (if noffset != 0 then 4 * size else 0)
  }

  function DataEnd(size: u32, nbits: u32, noffset: u32, nwidth: u32): nat
  {
    WidthsStart(size, nbits, noffset) + (if nwidth != 0 then size else 0)
  }

  /** The number of bytes a load reads from a file whose header is complete. */
  function FileLength(s: seq<byte>): nat
    requires HeaderSize <= |s|
  {
    DataEnd(LongAt(s, SizeAt), LongAt(s, NBitsAt), LongAt(s, NOffsetAt), LongAt(s, NWidthAt))
  }

  /**
   * What loading the bytes `s` yields. The name is the 64-byte field with its
   * trailing spaces removed, read up to its first NUL; the bitmap is always
   * present, `nbits` words long; the offset and width sections exist only
   * when their header count is nonzero and then hold `size` entries each.
   */
  function Decode(s: seq<byte>): (r: Result<FontImage, LoadError>)
    ensures r == Failure(BadMagic) <==> |s| < 4 || s[..4] != Magic
    ensures r.Success? ==> HeaderSize <= |s| && FileLength(s) <= |s|
    ensures r.Success? ==>
      |r.value.bits| == LongAt(s, NBitsAt) &&
      (r.value.offsets.Some? <==> LongAt(s, NOffsetAt) != 0) &&
      (r.value.widths.Some? <==> LongAt(s, NWidthAt) != 0) &&
      (r.value.offsets.Some? ==> |r.value.offsets.value| == r.value.size) &&
      (r.value.widths.Some? ==> |r.value.widths.value| == r.value.size)
  {
    if |s| < 4 || s[..4] != Magic then Failure(BadMagic)
    else if |s| < HeaderSize then Failure(Truncated)
    else
      var size := LongAt(s, SizeAt);
      var nbits := LongAt(s, NBitsAt);
      var noffset := LongAt(s, NOffsetAt);
      var nwidth := LongAt(s, NWidthAt);
      if Overruns(size, noffset, nwidth) then Failure(Overrun)
      else if |s| < DataEnd(size, nbits, noffset, nwidth) then Failure(Truncated)
      else
        var ws := WidthsStart(size, nbits, noffset);
        Success(FontImage(
          name := CString(TrimRight(s[NameAt..NameAt + NameLen])),
          maxwidth := ShortAt(s, MaxWidthAt),
          height := ShortAt(s, HeightAt),
          ascent := ShortAt(s, AscentAt),
          firstchar := LongAt(s, FirstCharAt),
          defaultchar := LongAt(s, DefaultCharAt),
          size := size,
          bits := ShortsAt(s, HeaderSize, nbits),
          offsets := if noffset != 0 then Some(LongsAt(s, OffsetsStart(nbits), size)) else None,
          widths := if nwidth != 0 then Some(s[ws..ws + size]) else None))
  }

  /** strcmp against VERSION: the four bytes read, taken as a C string, equal "RB11" exactly when they are "RB11". */
  lemma {:induction false} MagicExact(v: seq<byte>)
    requires |v| == 4
    ensures CString(v) == Magic <==> v == Magic
  {
    if v == Magic {
      CStringNoNul(v);
    }
  }

  // ---------------------------------------------------------------------
  // The writer's side of the format

  /** Every field of a .fnt file, in file order, as a writer would supply it. */
  datatype FontFile = FontFile(
    name: seq<byte>,
    copyright: seq<byte>,
    maxwidth: u16,
    height: u16,
    ascent: u16,
    pad: u16,
    firstchar: u32,
    defaultchar: u32,
    size: u32,
    nbits: u32,
    noffset: u32,
    nwidth: u32,
    bits: seq<u16>,
    offsets: seq<u32>,
    widths: seq<byte>)

  /** The sections hold exactly what the header counts announce. */
  predicate WellFormed(f: FontFile)
  {
    |f.name| == NameLen && |f.copyright| == CopyrightLen &&
    |f.bits| == f.nbits &&
    |f.offsets| == (if f.noffset != 0 then f.size else 0) &&
    |f.widths| == (if f.nwidth != 0 then f.size else 0) &&
    !Overruns(f.size, f.noffset, f.nwidth)
  }

  /** The bitmap section a writer stores for `ws`. */
  function Shorts(ws: seq<u16>): (b: seq<byte>)
    ensures |b| == 2 * |ws|
  {
    if ws == [] then [] else ShortBytes(ws[0]) + Shorts(ws[1..])
  }

  /** The offset section a writer stores for `ls`. */
  function Longs(ls: seq<u32>): (b: seq<byte>)
    ensures |b| == 4 * |ls|
  {
    if ls == [] then [] else LongBytes(ls[0]) + Longs(ls[1..])
  }

  function EncodeHeader(f: FontFile): seq<byte>
  {
    Magic + f.name + f.copyright +
    ShortBytes(f.maxwidth) + ShortBytes(f.height) + ShortBytes(f.ascent) + ShortBytes(f.pad) +
    LongBytes(f.firstchar) + LongBytes(f.defaultchar) + LongBytes(f.size) +
    LongBytes(f.nbits) + LongBytes(f.noffset) + LongBytes(f.nwidth)
  }

  /** The bytes of a .fnt file, fields in file order with no gaps. */
  function Encode(f: FontFile): seq<byte>
  {
    EncodeHeader(f) + Shorts(f.bits) + Longs(f.offsets) + f.widths
  }

  /** The record a load of `f` should produce. */
  function ImageOf(f: FontFile): FontImage
  {
    FontImage(
      name := CString(TrimRight(f.name)),
      maxwidth := f.maxwidth,
      height := f.height,
      ascent := f.ascent,
      firstchar := f.firstchar,
      defaultchar := f.defaultchar,
      size := f.size,
      bits := f.bits,
      offsets := if f.noffset != 0 then Some(f.offsets) else None,
      widths := if f.nwidth != 0 then Some(f.widths) else None)
  }

  // ---------------------------------------------------------------------
  // Decode against Encode

  /** The header a writer lays out reads back field by field at the fixed offsets. */
  lemma {:induction false} EncodedHeaderFields(f: FontFile, tail: seq<byte>)
    requires |f.name| == NameLen && |f.copyright| == CopyrightLen
    ensures |EncodeHeader(f)| == HeaderSize
    ensures var s := EncodeHeader(f) + tail;
      s[..4] == Magic && s[NameAt..NameAt + NameLen] == f.name &&
      ShortAt(s, MaxWidthAt) == f.maxwidth && ShortAt(s, HeightAt) == f.height &&
      ShortAt(s, AscentAt) == f.ascent && ShortAt(s, PadAt) == f.pad &&
      LongAt(s, FirstCharAt) == f.firstchar && LongAt(s, DefaultCharAt) == f.defaultchar &&
      LongAt(s, SizeAt) == f.size && LongAt(s, NBitsAt) == f.nbits &&
      LongAt(s, NOffsetAt) == f.noffset && LongAt(s, NWidthAt) == f.nwidth
  {
    var s := EncodeHeader(f) + tail;
    assert s[..4] == Magic;
    assert s[NameAt..NameAt + NameLen] == f.name;
    assert s[MaxWidthAt..MaxWidthAt + 2] == ShortBytes(f.maxwidth);
    assert s[HeightAt..HeightAt + 2] == ShortBytes(f.height);
    assert s[AscentAt..AscentAt + 2] == ShortBytes(f.ascent);
    assert s[PadAt..PadAt + 2] == ShortBytes(f.pad);
    assert s[FirstCharAt..FirstCharAt + 4] == LongBytes(f.firstchar);
    assert s[DefaultCharAt..DefaultCharAt + 4] == LongBytes(f.defaultchar);
    assert s[SizeAt..SizeAt + 4] == LongBytes(f.size);
    assert s[NBitsAt..NBitsAt + 4] == LongBytes(f.nbits);
    assert s[NOffsetAt..NOffsetAt + 4] == LongBytes(f.noffset);
    assert s[NWidthAt..NWidthAt + 4] == LongBytes(f.nwidth);
  }

  lemma {:induction false} SliceAfter(a: seq<byte>, m: seq<byte>, i: nat, j: nat)
    requires i <= j <= |m|
    ensures (a + m)[|a| + i..|a| + j] == m[i..j]
  {
  }

  /** Entry `i` of an encoded bitmap section decodes to the `i`th word. */
  lemma {:induction false} ShortsIndex(ws: seq<u16>, i: nat)
    requires i < |ws|
    ensures LeShort(Shorts(ws)[2 * i..2 * i + 2]) == ws[i]
  {
    var h, r := ShortBytes(ws[0]), Shorts(ws[1..]);
    assert Shorts(ws) == h + r;
    if i == 0 {
      assert (h + r)[..2] == h;
    } else {
      ShortsIndex(ws[1..], i - 1);
      SliceAfter(h, r, 2 * (i - 1), 2 * (i - 1) + 2);
    }
  }

  /** Entry `i` of an encoded offset section decodes to the `i`th offset. */
  lemma {:induction false} LongsIndex(ls: seq<u32>, i: nat)
    requires i < |ls|
    ensures LeLong(Longs(ls)[4 * i..4 * i + 4]) == ls[i]
  {
    var h, r := LongBytes(ls[0]), Longs(ls[1..]);
    assert Longs(ls) == h + r;
    if i == 0 {
      assert (h + r)[..4] == h;
    } else {
      LongsIndex(ls[1..], i - 1);
      SliceAfter(h, r, 4 * (i - 1), 4 * (i - 1) + 4);
    }
  }

  lemma {:induction false} ShortsAtMiddle(a: seq<byte>, b: seq<byte>, c: seq<byte>, ws: seq<u16>)
    requires |b| == 2 * |ws|
    requires forall i | 0 <= i < |ws| :: LeShort(b[2 * i..2 * i + 2]) == ws[i]
    ensures ShortsAt(a + b + c, |a|, |ws|) == ws
  {
    var s := a + b + c;
    var r := ShortsAt(s, |a|, |ws|);
    forall i | 0 <= i < |ws|
      ensures r[i] == ws[i]
    {
      var p := |a| + 2 * i;
      assert s[p..p + 2] == b[2 * i..2 * i + 2];
    }
  }

  lemma {:induction false} LongsAtMiddle(a: seq<byte>, b: seq<byte>, c: seq<byte>, ls: seq<u32>)
    requires |b| == 4 * |ls|
    requires forall i | 0 <= i < |ls| :: LeLong(b[4 * i..4 * i + 4]) == ls[i]
    ensures LongsAt(a + b + c, |a|, |ls|) == ls
  {
    var s := a + b + c;
    var r := LongsAt(s, |a|, |ls|);
    forall i | 0 <= i < |ls|
      ensures r[i] == ls[i]
    {
      var p := |a| + 4 * i;
      assert s[p..p + 4] == b[4 * i..4 * i + 4];
    }
  }

  /** An encoded bitmap section, wherever it lies, decodes to the words it encodes. */
  lemma {:induction false} ShortsAtOfShorts(a: seq<byte>, ws: seq<u16>, c: seq<byte>)
    ensures ShortsAt(a + Shorts(ws) + c, |a|, |ws|) == ws
  {
    var b := Shorts(ws);
    ShortsDecode(ws, b);
    ShortsAtMiddle(a, b, c, ws);
  }

  lemma {:induction false} ShortsDecode(ws: seq<u16>, b: seq<byte>)
    requires b == Shorts(ws)
    ensures |b| == 2 * |ws|
    ensures forall i | 0 <= i < |ws| :: LeShort(b[2 * i..2 * i + 2]) == ws[i]
  {
    forall i | 0 <= i < |ws|
      ensures LeShort(b[2 * i..2 * i + 2]) == ws[i]
    {
      ShortsIndex(ws, i);
    }
  }

  /** An encoded offset section, wherever it lies, decodes to the offsets it encodes. */
  lemma {:induction false} LongsAtOfLongs(a: seq<byte>, ls: seq<u32>, c: seq<byte>)
    ensures LongsAt(a + Longs(ls) + c, |a|, |ls|) == ls
  {
    var b := Longs(ls);
    LongsDecode(ls, b);
    LongsAtMiddle(a, b, c, ls);
  }

  lemma {:induction false} LongsDecode(ls: seq<u32>, b: seq<byte>)
    requires b == Longs(ls)
    ensures |b| == 4 * |ls|
    ensures forall i | 0 <= i < |ls| :: LeLong(b[4 * i..4 * i + 4]) == ls[i]
  {
    forall i | 0 <= i < |ls|
      ensures LeLong(b[4 * i..4 * i + 4]) == ls[i]
    {
      LongsIndex(ls, i);
    }
  }

  /** Bytes that hold the fields of `f` at the fixed offsets load as the record of `f`. */
  lemma {:induction false} DecodeLaidOut(s: seq<byte>, f: FontFile)
    requires WellFormed(f)
    requires DataEnd(f.size, f.nbits, f.noffset, f.nwidth) <= |s|
    requires s[..4] == Magic && s[NameAt..NameAt + NameLen] == f.name
    requires ShortAt(s, MaxWidthAt) == f.maxwidth && ShortAt(s, HeightAt) == f.height
    requires ShortAt(s, AscentAt) == f.ascent
    requires LongAt(s, FirstCharAt) == f.firstchar && LongAt(s, DefaultCharAt) == f.defaultchar
    requires LongAt(s, SizeAt) == f.size && LongAt(s, NBitsAt) == f.nbits
    requires LongAt(s, NOffsetAt) == f.noffset && LongAt(s, NWidthAt) == f.nwidth
    requires ShortsAt(s, HeaderSize, f.nbits) == f.bits
    requires f.noffset != 0 ==> LongsAt(s, OffsetsStart(f.nbits), f.size) == f.offsets
    requires var ws := WidthsStart(f.size, f.nbits, f.noffset);
      f.nwidth != 0 ==> s[ws..ws + f.size] == f.widths
    ensures Decode(s) == Success(ImageOf(f))
  {
  }

  /** The sections a writer lays out after any header of the right size read back as written. */
  lemma {:induction false} EncodedSections(h: seq<byte>, f: FontFile, rest: seq<byte>)
    requires WellFormed(f) && |h| == HeaderSize
    ensures var s := h + (Shorts(f.bits) + Longs(f.offsets) + f.widths + rest);
      var ws := WidthsStart(f.size, f.nbits, f.noffset);
      DataEnd(f.size, f.nbits, f.noffset, f.nwidth) <= |s| &&
      ShortsAt(s, HeaderSize, f.nbits) == f.bits &&
      (f.noffset != 0 ==> LongsAt(s, OffsetsStart(f.nbits), f.size) == f.offsets) &&
      (f.nwidth != 0 ==> s[ws..ws + f.size] == f.widths)
  {
    var sb, so := Shorts(f.bits), Longs(f.offsets);
    var s := h + (sb + so + f.widths + rest);
    assert s == h + sb + (so + f.widths + rest);
    ShortsAtOfShorts(h, f.bits, so + f.widths + rest);
    assert s == (h + sb) + so + (f.widths + rest);
    LongsAtOfLongs(h + sb, f.offsets, f.widths + rest);
    var ws := WidthsStart(f.size, f.nbits, f.noffset);
    assert ws == |h + sb + so|;
    assert s == (h + sb + so) + f.widths + rest;
    assert s[ws..ws + |f.widths|] == f.widths;
  }

  /**
   * Round trip: loading the bytes of a well-formed file, followed by anything,
   * yields every field as written. The copyright and pad fields may hold
   * anything; the load does not keep them.
   */
  lemma {:induction false} DecodeEncode(f: FontFile, rest: seq<byte>)
    requires WellFormed(f)
    ensures Decode(Encode(f) + rest) == Success(ImageOf(f))
  {
    var tail := Shorts(f.bits) + Longs(f.offsets) + f.widths + rest;
    var s := Encode(f) + rest;
    assert s == EncodeHeader(f) + tail;
    EncodedHeaderFields(f, tail);
    EncodedSections(EncodeHeader(f), f, rest);
    DecodeLaidOut(s, f);
  }

  // ---------------------------------------------------------------------
  // Every successful load reads the encoding of some well-formed file

  lemma {:induction false} SliceJoin(s: seq<byte>, i: nat, j: nat, k: nat)
    requires i <= j <= k <= |s|
    ensures s[i..j] + s[j..k] == s[i..k]
  {
  }

  lemma {:induction false} SliceJoin3(s: seq<byte>, a: nat, b: nat, c: nat, d: nat)
    requires a <= b <= c <= d <= |s|
    ensures s[a..b] + s[b..c] + s[c..d] == s[a..d]
  {
  }

  lemma {:induction false} PrefixJoin(s: seq<byte>, j: nat, k: nat)
    requires j <= k <= |s|
    ensures s[..j] + s[j..k] == s[..k]
  {
  }

  /** A bitmap section read from the file is stored again byte for byte. */
  lemma {:induction false} ShortsOfShortsAt(s: seq<byte>, p: nat, n: nat)
    requires p + 2 * n <= |s|
    ensures Shorts(ShortsAt(s, p, n)) == s[p..p + 2 * n]
    decreases n
  {
    if n > 0 {
      var ws := ShortsAt(s, p, n);
      assert ws[1..] == ShortsAt(s, p + 2, n - 1);
      ShortsOfShortsAt(s, p + 2, n - 1);
      ShortBytesOfLeShort(s[p..p + 2]);
      SliceJoin(s, p, p + 2, p + 2 * n);
    }
  }

  /** An offset section read from the file is stored again byte for byte. */
  lemma {:induction false} LongsOfLongsAt(s: seq<byte>, p: nat, n: nat)
    requires p + 4 * n <= |s|
    ensures Longs(LongsAt(s, p, n)) == s[p..p + 4 * n]
    decreases n
  {
    if n > 0 {
      var ls := LongsAt(s, p, n);
      assert ls[1..] == LongsAt(s, p + 4, n - 1);
      LongsOfLongsAt(s, p + 4, n - 1);
      LongBytesOfLeLong(s[p..p + 4]);
      SliceJoin(s, p, p + 4, p + 4 * n);
    }
  }

  /** A header whose fields are those read from `s` is stored again as the first 356 bytes of `s`. */
  lemma {:induction false} HeaderOfFields(s: seq<byte>, f: FontFile)
    requires HeaderSize <= |s| && s[..4] == Magic
    requires f.name == s[NameAt..CopyrightAt] && f.copyright == s[CopyrightAt..MaxWidthAt]
    requires f.maxwidth == ShortAt(s, MaxWidthAt) && f.height == ShortAt(s, HeightAt)
    requires f.ascent == ShortAt(s, AscentAt) && f.pad == ShortAt(s, PadAt)
    requires f.firstchar == LongAt(s, FirstCharAt) && f.defaultchar == LongAt(s, DefaultCharAt)
    requires f.size == LongAt(s, SizeAt) && f.nbits == LongAt(s, NBitsAt)
    requires f.noffset == LongAt(s, NOffsetAt) && f.nwidth == LongAt(s, NWidthAt)
    ensures EncodeHeader(f) == s[..HeaderSize]
  {
    ShortBytesOfLeShort(s[MaxWidthAt..HeightAt]);
    ShortBytesOfLeShort(s[HeightAt..AscentAt]);
    ShortBytesOfLeShort(s[AscentAt..PadAt]);
    ShortBytesOfLeShort(s[PadAt..FirstCharAt]);
    LongBytesOfLeLong(s[FirstCharAt..DefaultCharAt]);
    LongBytesOfLeLong(s[DefaultCharAt..SizeAt]);
    LongBytesOfLeLong(s[SizeAt..NBitsAt]);
    LongBytesOfLeLong(s[NBitsAt..NOffsetAt]);
    LongBytesOfLeLong(s[NOffsetAt..NWidthAt]);
    LongBytesOfLeLong(s[NWidthAt..HeaderSize]);
    PrefixJoin(s, NameAt, CopyrightAt);
    PrefixJoin(s, CopyrightAt, MaxWidthAt);
    PrefixJoin(s, MaxWidthAt, HeightAt);
    PrefixJoin(s, HeightAt, AscentAt);
    PrefixJoin(s, AscentAt, PadAt);
    PrefixJoin(s, PadAt, FirstCharAt);
    PrefixJoin(s, FirstCharAt, DefaultCharAt);
    PrefixJoin(s, DefaultCharAt, SizeAt);
    PrefixJoin(s, SizeAt, NBitsAt);
    PrefixJoin(s, NBitsAt, NOffsetAt);
    PrefixJoin(s, NOffsetAt, NWidthAt);
    PrefixJoin(s, NWidthAt, HeaderSize);
  }

  /** The fields a successful load reads from `s`, copyright and pad included. */
  function FileOf(s: seq<byte>): FontFile
    requires Decode(s).Success?
  {
    var size, nbits := LongAt(s, SizeAt), LongAt(s, NBitsAt);
    var noffset, nwidth := LongAt(s, NOffsetAt), LongAt(s, NWidthAt);
    var ws := WidthsStart(size, nbits, noffset);
    FontFile(
      name := s[NameAt..CopyrightAt],
      copyright := s[CopyrightAt..MaxWidthAt],
      maxwidth := ShortAt(s, MaxWidthAt),
      height := ShortAt(s, HeightAt),
      ascent := ShortAt(s, AscentAt),
      pad := ShortAt(s, PadAt),
      firstchar := LongAt(s, FirstCharAt),
      defaultchar := LongAt(s, DefaultCharAt),
      size := size,
      nbits := nbits,
      noffset := noffset,
      nwidth := nwidth,
      bits := ShortsAt(s, HeaderSize, nbits),
      offsets := if noffset != 0 then LongsAt(s, OffsetsStart(nbits), size) else [],
      widths := if nwidth != 0 then s[ws..ws + size] else [])
  }

  /** The sections of a successfully loaded file, stored again, are the bytes the load read after the header. */
  lemma {:induction false} SectionsOfFileOf(s: seq<byte>)
    requires Decode(s).Success?
    ensures var f := FileOf(s);
      Shorts(f.bits) + Longs(f.offsets) + f.widths == s[HeaderSize..FileLength(s)]
  {
    var f := FileOf(s);
    var os := OffsetsStart(f.nbits);
    var ws := WidthsStart(f.size, f.nbits, f.noffset);
    var end := FileLength(s);
    ShortsOfShortsAt(s, HeaderSize, f.nbits);
    OffsetSectionOf(s);
    WidthSectionOf(s);
    SliceJoin3(s, HeaderSize, os, ws, end);
  }

  /** The offsets of a loaded file, stored again, are the bytes between the bitmap and the widths. */
  lemma {:induction false} OffsetSectionOf(s: seq<byte>)
    requires Decode(s).Success?
    ensures var f := FileOf(s);
      Longs(f.offsets) == s[OffsetsStart(f.nbits)..WidthsStart(f.size, f.nbits, f.noffset)]
  {
    var f := FileOf(s);
    if f.noffset != 0 {
      LongsOfLongsAt(s, OffsetsStart(f.nbits), f.size);
    }
  }

  /** The widths of a loaded file are the bytes from the end of the offsets to the end of the load. */
  lemma {:induction false} WidthSectionOf(s: seq<byte>)
    requires Decode(s).Success?
    ensures var f := FileOf(s);
      f.widths == s[WidthsStart(f.size, f.nbits, f.noffset)..FileLength(s)]
  {
  }

  /**
   * The converse of DecodeEncode: whatever loads successfully begins with the
   * encoding of a well-formed file, and loads as that file's record.
   */
  lemma {:induction false} DecodeIsEncoding(s: seq<byte>)
    requires Decode(s).Success?
    ensures WellFormed(FileOf(s))
    ensures ImageOf(FileOf(s)) == Decode(s).value
    ensures Encode(FileOf(s)) == s[..FileLength(s)]
  {
    var f := FileOf(s);
    HeaderOfFields(s, f);
    SectionsOfFileOf(s);
    var sections := Shorts(f.bits) + Longs(f.offsets) + f.widths;
    assert Encode(f) == EncodeHeader(f) + sections;
    PrefixJoin(s, HeaderSize, FileLength(s));
  }

  // ---------------------------------------------------------------------
  // Consequences

  /** A file cut short anywhere before the end of its last section does not load. */
  lemma {:induction false} DecodeTruncated(s: seq<byte>, k: nat)
    requires Decode(s).Success? && k < FileLength(s)
    ensures Decode(s[..k]).Failure?
  {
    var t := s[..k];
    if HeaderSize <= k {
      assert t[SizeAt..SizeAt + 4] == s[SizeAt..SizeAt + 4];
      assert t[NBitsAt..NBitsAt + 4] == s[NBitsAt..NBitsAt + 4];
      assert t[NOffsetAt..NOffsetAt + 4] == s[NOffsetAt..NOffsetAt + 4];
      assert t[NWidthAt..NWidthAt + 4] == s[NWidthAt..NWidthAt + 4];
    }
    if 4 <= k {
      assert t[..4] == s[..4];
    }
  }

  lemma {:induction false} AppendAfterPrefix(s: seq<byte>, n: nat, e: seq<byte>, t: seq<byte>)
    requires n <= |s| && e == s[..n]
    ensures s + t == e + (s[n..] + t)
  {
    assert s == s[..n] + s[n..];
  }

  /** Bytes after the last section are never read: appending to a loadable file changes nothing. */
  lemma {:induction false} DecodeIgnoresTrailing(s: seq<byte>, t: seq<byte>)
    requires Decode(s).Success?
    ensures Decode(s + t) == Decode(s)
  {
    DecodeIsEncoding(s);
    var f := FileOf(s);
    var n := FileLength(s);
    AppendAfterPrefix(s, n, Encode(f), t);
    DecodeEncode(f, s[n..] + t);
  }

  /** The name field of the sample font: "Test" and 60 spaces. */
  const TestName: seq<byte> := [0x54, 0x65, 0x73, 0x74]

  /** A one-glyph font with one bitmap word 0x8000 and neither offset nor width section. */
  function TestFile(): FontFile
  {
    FontFile(
      name := TestName + seq(60, _ => Space), copyright := seq(256, _ => Space),
      maxwidth := 8, height := 12, ascent := 10, pad := 0,
      firstchar := 32, defaultchar := 32, size := 1,
      nbits := 1, noffset := 0, nwidth := 0,
      bits := [0x8000], offsets := [], widths := [])
  }

  /** The sample font loads with its name trimmed to "Test", its one word, and no offsets or widths. */
  lemma {:induction false} TestFileLoads()
    ensures |Encode(TestFile())| == HeaderSize + 2
    ensures Decode(Encode(TestFile())) ==
      Success(FontImage(TestName, 8, 12, 10, 32, 32, 1, [0x8000], None, None))
  {
    var f := TestFile();
    assert Encode(f) + [] == Encode(f);
    DecodeEncode(f, []);
    TrimRightPadded(TestName, 60);
    CStringNoNul(TestName);
  }

  /** The indices the source's fill loop writes in the offset or the width buffer: it runs when the header count is nonzero, and then `size` times. */
  function FillIndices(count: u32, size: u32): (r: seq<nat>)
    ensures (forall k | 0 <= k < |r| :: r[k] < count) <==> count == 0 || size <= count
  {
    if count == 0 then []
    else
      var r := seq(size, k => k);
      assert count < size ==> r[count] == count;
      r
  }

  /** A two-glyph font whose header announces a single offset (noffset = 1), with the two offsets the fill loop reads. */
  function OverrunFile(): FontFile
  {
    FontFile(
      name := seq(64, _ => Space), copyright := seq(256, _ => Space),
      maxwidth := 8, height := 12, ascent := 10, pad := 0,
      firstchar := 32, defaultchar := 32, size := 2,
      nbits := 0, noffset := 1, nwidth := 0,
      bits := [], offsets := [0, 0], widths := [])
  }

  /**
   * As written, the source loads OverrunFile: it has the magic and a complete
   * header, and nothing compares noffset with size. Its offset buffer is
   * allocated for noffset = 1 entry and the fill loop then writes entry 1.
   */
  lemma {:induction false} OverrunAsWritten()
    ensures var s := Encode(OverrunFile());
      |s| == HeaderSize + 4 * 2 && s[..4] == Magic &&
      var nbits, noffset, size := LongAt(s, NBitsAt), LongAt(s, NOffsetAt), LongAt(s, SizeAt);
      nbits == 0 && noffset == 1 && size == 2 && OffsetsStart(nbits) + 4 * size == |s| &&
      LongAt(s, NWidthAt) == 0 &&
      FillIndices(noffset, size)[1] >= noffset
    ensures Decode(Encode(OverrunFile())) == Failure(Overrun)
  {
    var f := OverrunFile();
    var tail := Shorts(f.bits) + Longs(f.offsets) + f.widths;
    assert Encode(f) == EncodeHeader(f) + tail;
    EncodedHeaderFields(f, tail);
  }

  /** Corrected: every fill of a file that loads stays inside the buffer allocated for its section. */
  lemma {:induction false} DecodeFillsInBounds(s: seq<byte>)
    requires Decode(s).Success?
    ensures var size := LongAt(s, SizeAt);
      var noffset, nwidth := LongAt(s, NOffsetAt), LongAt(s, NWidthAt);
      (forall k | 0 <= k < |FillIndices(noffset, size)| :: FillIndices(noffset, size)[k] < noffset) &&
      (forall k | 0 <= k < |FillIndices(nwidth, size)| :: FillIndices(nwidth, size)[k] < nwidth)
  {
  }
}
