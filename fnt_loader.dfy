/**
 * The .fnt loader of src/engine/font_fnt.c as it runs: the little-endian
 * readers over a `FILE`, the in-core font record MWCFONT filled one field and
 * one buffer at a time, the single error exit that closes the file and frees
 * whatever was allocated, and the unload and create entry points.
 * `LoadFont` is proved against `FntFormat.Decode`.
 */
module FntLoader {
  import opened Wrappers
  import opened Bytes
  import opened CStrings
  import opened FntFormat
  import opened Stdio

  // ---------------------------------------------------------------------
  // Readers

  /** READBYTE: one byte, or failure at end of file. */
  method ReadByte(fp: Stream) returns (ok: bool, b: byte)
    requires fp.Valid()
    modifies fp`pos
    ensures fp.Valid()
    ensures ok <==> old(fp.pos) + 1 <= |fp.data|
    ensures ok ==> b == fp.data[old(fp.pos)] && fp.pos == old(fp.pos) + 1
    ensures !ok ==> fp.pos == |fp.data|
  {
    var c := fp.Getc();
    if c == EOF {
      return false, 0;
    }
    ok, b := true, c;
  }

  /** READSHORT: two bytes, low-order first; failure if the file ends first. */
  method ReadShort(fp: Stream) returns (ok: bool, v: u16)
    requires fp.Valid()
    modifies fp`pos
    ensures fp.Valid()
    ensures ok <==> old(fp.pos) + 2 <= |fp.data|
    ensures ok ==> v == LeShort(fp.data[old(fp.pos)..old(fp.pos) + 2]) && fp.pos == old(fp.pos) + 2
    ensures !ok ==> fp.pos == |fp.data|
  {
    var c := fp.Getc();
    if c == EOF {
      return false, 0;
    }
    var lo := c;
    c := fp.Getc();
    if c == EOF {
      return false, 0;
    }
    // the shift and the `|` of disjoint bit ranges are a weighted sum
    ok, v := true, c * 0x100 + lo;
  }

  /** READLONG: four bytes, lowest-order first; failure if the file ends first. */
  method ReadLong(fp: Stream) returns (ok: bool, v: u32)
    requires fp.Valid()
    modifies fp`pos
    ensures fp.Valid()
    ensures ok <==> old(fp.pos) + 4 <= |fp.data|
    ensures ok ==> v == LeLong(fp.data[old(fp.pos)..old(fp.pos) + 4]) && fp.pos == old(fp.pos) + 4
    ensures !ok ==> fp.pos == |fp.data|
  {
    var c := fp.Getc();
    if c == EOF {
      return false, 0;
    }
    var l: int := c;
    c := fp.Getc();
    if c == EOF {
      return false, 0;
    }
    l := l + c * 0x100;
    c := fp.Getc();
    if c == EOF {
      return false, 0;
    }
    l := l + c * 0x1_0000;
    c := fp.Getc();
    if c == EOF {
      return false, 0;
    }
    ok, v := true, c * 0x100_0000 + l;
  }

  /** READSTR: `fread` of `count` bytes; returns how many were read. */
  method ReadStr(fp: Stream, buf: array<byte>, count: nat) returns (n: nat)
    requires fp.Valid() && count <= buf.Length
    modifies fp`pos, buf
    ensures fp.Valid()
    ensures n == count <==> old(fp.pos) + count <= |fp.data|
    ensures n == count ==> fp.pos == old(fp.pos) + count && buf[..count] == fp.data[old(fp.pos)..fp.pos]
    ensures n != count ==> fp.pos == |fp.data|
  {
    n := fp.Fread(buf, count);
  }

  /**
   * READSTRPAD: reads a fixed-width field of exactly `totlen` bytes, then
   * walks back from its end turning each trailing space into a NUL. Returns
   * `totlen`, or 0 when the file ends inside the field.
   */
  method ReadStrPad(fp: Stream, buf: array<byte>, totlen: nat) returns (n: nat)
    requires fp.Valid() && totlen <= buf.Length
    modifies fp`pos, buf
    ensures fp.Valid()
    ensures n == totlen <==> old(fp.pos) + totlen <= |fp.data|
    ensures n == totlen ==>
      fp.pos == old(fp.pos) + totlen && buf[..totlen] == Blanked(fp.data[old(fp.pos)..fp.pos])
    ensures n != totlen ==> n == 0 && fp.pos == |fp.data|
  {
    var got := fp.Fread(buf, totlen);
    if got != totlen {
      return 0;
    }
    ghost var field := buf[..totlen];
    var k := totlen;
    while k > 0 && buf[k - 1] == Space
      invariant k <= totlen && fp.Valid() && fp.pos == old(fp.pos) + totlen
      invariant field == fp.data[old(fp.pos)..fp.pos]
      invariant buf[..k] == field[..k]
      invariant forall j | k <= j < totlen :: buf[j] == Nul
      invariant TrimRight(field) == TrimRight(field[..k])
    {
      assert field[..k][..k - 1] == field[..k - 1];
      buf[k - 1] := Nul;
      k := k - 1;
    }
    assert TrimRight(field[..k]) == field[..k];
    assert buf[..totlen] == Blanked(field);
    n := totlen;
  }

  // ---------------------------------------------------------------------
  // The in-core font

  /** MWCFONT: the font record a load fills in; its buffers are separate heap blocks. */
  class CFont {
    var name: array?<byte>
    var maxwidth: u16
    var height: u16
    var ascent: u16
    var firstchar: u32
    var defaultchar: u32
    var size: u32
    var bits: array?<u16>
    var bitsSize: u32
    var offset: array?<u32>
    var width: array?<byte>

    /** `calloc(1, sizeof(MWCFONT))`: every pointer null, every number zero. */
    constructor ()
      ensures Empty()
    {
      name := null;
      maxwidth, height, ascent := 0, 0, 0;
      firstchar, defaultchar, size := 0, 0, 0;
      bits := null;
      bitsSize := 0;
      offset := null;
      width := null;
    }

    ghost predicate Empty()
      reads this
    {
      name == null && bits == null && offset == null && width == null &&
      maxwidth == 0 && height == 0 && ascent == 0 &&
      firstchar == 0 && defaultchar == 0 && size == 0 && bitsSize == 0
    }

    /** The record and every buffer it points to: what freeing the font must give back. */
    ghost function Owned(): set<object>
      reads this
    {
      {this} +
      (if name != null then {name} else {}) +
      (if bits != null then {bits} else {}) +
      (if offset != null then {offset} else {}) +
      (if width != null then {width} else {})
    }

    /** The two byte buffers are distinct blocks, so each is freed once. */
    ghost predicate Separate()
      reads this
    {
      name == null || name != width
    }

    /**
     * A fully loaded record: a NUL-terminated name, a bitmap of `bitsSize`
     * words, and offset and width buffers, where present, with room for the
     * `size` entries the load wrote into them.
     */
    ghost predicate Valid()
      reads this, name, bits, offset, width
    {
      Separate() &&
      name != null && bits != null &&
      1 <= name.Length && name[name.Length - 1] == Nul &&
      (forall j | 0 <= j < name.Length - 1 :: name[j] != Nul) &&
      bits.Length == bitsSize &&
      (offset != null ==> size <= offset.Length) &&
      (width != null ==> size <= width.Length)
    }

    /** The contents of a loaded record, as a value. */
    ghost function Image(): FontImage
      reads this, name, bits, offset, width
      requires Valid()
    {
      FontImage(
        name[..name.Length - 1], maxwidth, height, ascent, firstchar, defaultchar, size, bits[..],
        if offset != null then Some(offset[..size]) else None,
        if width != null then Some(width[..size]) else None)
    }
  }

  /** MWCOREFONT: the handle the engine hands out for a loaded .fnt font. */
  class CoreFont {
    var fontsize: int
    var fontrotation: int
    var fontattr: int
    var name: seq<char>
    var cfont: CFont?

    constructor ()
      ensures cfont == null
    {
      cfont := null;
    }
  }

  /** `calloc` of a font record. */
  method CallocFont(heap: Heap) returns (pf: CFont?)
    modifies heap`live, heap`failures
    ensures pf == null ==> heap.live == old(heap.live) && !heap.ample && heap.failures == old(heap.failures) + 1
    ensures pf != null ==>
      fresh(pf) && pf.Empty() && heap.live == old(heap.live) + {pf} && heap.failures == old(heap.failures)
  {
    var granted := heap.Grant();
    if !granted {
      return null;
    }
    pf := new CFont();
    heap.Adopt(pf);
  }

  /** `malloc` of a font handle. */
  method MallocCoreFont(heap: Heap) returns (font: CoreFont?)
    modifies heap`live, heap`failures
    ensures font == null ==> heap.live == old(heap.live) && !heap.ample && heap.failures == old(heap.failures) + 1
    ensures font != null ==>
      fresh(font) && font.cfont == null && heap.live == old(heap.live) + {font} &&
      heap.failures == old(heap.failures)
  {
    var granted := heap.Grant();
    if !granted {
      return null;
    }
    font := new CoreFont();
    heap.Adopt(font);
  }

  /** Frees each buffer the record holds, then the record. */
  method FreeRecord(pf: CFont, heap: Heap)
    requires pf.Owned() <= heap.live && pf.Separate()
    modifies heap`live
    ensures heap.live == old(heap.live) - pf.Owned()
  {
    if pf.name != null {
      heap.Free(pf.name);
    }
    if pf.bits != null {
      heap.Free(pf.bits);
    }
    if pf.offset != null {
      heap.Free(pf.offset);
    }
    if pf.width != null {
      heap.Free(pf.width);
    }
    heap.Free(pf);
  }

  // ---------------------------------------------------------------------
  // The steps of fnt_load_font

  /** The "font info" block: maxwidth, height, ascent and pad, then firstchar, defaultchar and size. */
  method ReadFontInfo(fp: Stream, pf: CFont) returns (ok: bool)
    requires fp.Valid() && fp.pos == MaxWidthAt
    modifies fp`pos, pf`maxwidth, pf`height, pf`ascent, pf`firstchar, pf`defaultchar, pf`size
    ensures fp.Valid()
    ensures ok <==> NBitsAt <= |fp.data|
    ensures ok ==>
      fp.pos == NBitsAt &&
      pf.maxwidth == ShortAt(fp.data, MaxWidthAt) && pf.height == ShortAt(fp.data, HeightAt) &&
      pf.ascent == ShortAt(fp.data, AscentAt) && pf.firstchar == LongAt(fp.data, FirstCharAt) &&
      pf.defaultchar == LongAt(fp.data, DefaultCharAt) && pf.size == LongAt(fp.data, SizeAt)
  {
    var w: u16, l: u32;
    ok, w := ReadShort(fp);
    if !ok {
      return;
    }
    pf.maxwidth := w;
    ok, w := ReadShort(fp);
    if !ok {
      return;
    }
    pf.height := w;
    ok, w := ReadShort(fp);
    if !ok {
      return;
    }
    pf.ascent := w;
    ok, w := ReadShort(fp);
    if !ok {
      return;
    }
    ok, l := ReadLong(fp);
    if !ok {
      return;
    }
    pf.firstchar := l;
    ok, l := ReadLong(fp);
    if !ok {
      return;
    }
    pf.defaultchar := l;
    ok, l := ReadLong(fp);
    if !ok {
      return;
    }
    pf.size := l;
  }

  /** The bitmap loop: `count` words into `bits`. */
  method FillBits(fp: Stream, bits: array<u16>, count: nat) returns (ok: bool)
    requires fp.Valid() && count <= bits.Length
    modifies fp`pos, bits
    ensures fp.Valid()
    ensures ok <==> old(fp.pos) + 2 * count <= |fp.data|
    ensures ok ==> fp.pos == old(fp.pos) + 2 * count && bits[..count] == ShortsAt(fp.data, old(fp.pos), count)
  {
    var i := 0;
    while i < count
      invariant fp.Valid() && i <= count && fp.pos == old(fp.pos) + 2 * i
      invariant forall j | 0 <= j < i :: bits[j] == ShortAt(fp.data, old(fp.pos) + 2 * j)
    {
      var w: u16;
      ok, w := ReadShort(fp);
      if !ok {
        return;
      }
      bits[i] := w;
      i := i + 1;
    }
    ok := true;
  }

  /** The offset loop: `count` longs into `offset`. */
  method FillOffsets(fp: Stream, offset: array<u32>, count: nat) returns (ok: bool)
    requires fp.Valid() && count <= offset.Length
    modifies fp`pos, offset
    ensures fp.Valid()
    ensures ok <==> old(fp.pos) + 4 * count <= |fp.data|
    ensures ok ==> fp.pos == old(fp.pos) + 4 * count && offset[..count] == LongsAt(fp.data, old(fp.pos), count)
  {
    var i := 0;
    while i < count
      invariant fp.Valid() && i <= count && fp.pos == old(fp.pos) + 4 * i
      invariant forall j | 0 <= j < i :: offset[j] == LongAt(fp.data, old(fp.pos) + 4 * j)
    {
      var l: u32;
      ok, l := ReadLong(fp);
      if !ok {
        return;
      }
      offset[i] := l;
      i := i + 1;
    }
    ok := true;
  }

  /** The width loop: `count` bytes into `width`. */
  method FillWidths(fp: Stream, width: array<byte>, count: nat) returns (ok: bool)
    requires fp.Valid() && count <= width.Length
    modifies fp`pos, width
    ensures fp.Valid()
    ensures ok <==> old(fp.pos) + count <= |fp.data|
    ensures ok ==> fp.pos == old(fp.pos) + count && width[..count] == fp.data[old(fp.pos)..fp.pos]
  {
    var i := 0;
    while i < count
      invariant fp.Valid() && i <= count && fp.pos == old(fp.pos) + i
      invariant width[..i] == fp.data[old(fp.pos)..fp.pos]
    {
      var b: byte;
      ok, b := ReadByte(fp);
      if !ok {
        return;
      }
      width[i] := b;
      i := i + 1;
    }
    ok := true;
  }

  // ---------------------------------------------------------------------
  // Loading

  /**
   * The heap during a load: besides the blocks that were live before it
   * (`base`), exactly the record and the buffers it points to, each a block
   * of its own. This is what the error exit relies on to free everything.
   */
  ghost predicate Accounted(heap: Heap, pf: CFont, base: set<object>)
    reads heap, pf
  {
    pf.Separate() && pf.Owned() !! base && heap.live == base + pf.Owned()
  }

  /**
   * The internal name: the 64-byte field is read and blank-stripped, then
   * `strlen + 1` bytes are allocated and the string copied in.
   */
  method ReadName(fp: Stream, pf: CFont, heap: Heap, ghost base: set<object>) returns (ok: bool, ghost oom: bool)
    requires fp.Valid() && fp.pos == NameAt
    requires pf.name == null && Accounted(heap, pf, base)
    modifies fp`pos, heap`live, heap`failures, pf`name
    ensures fp.Valid() && Accounted(heap, pf, base)
    ensures pf.name != null ==> fresh(pf.name)
    ensures ok ==>
      fp.pos == CopyrightAt && pf.name != null &&
      pf.name[..] == CString(TrimRight(fp.data[NameAt..CopyrightAt])) + [Nul]
    ensures heap.failures == old(heap.failures) + (if oom then 1 else 0) && (oom ==> !heap.ample)
    ensures ok ==> !oom
    ensures !ok && !oom ==> |fp.data| < CopyrightAt
  {
    oom := false;
    var name := new byte[NameLen];
    var n := ReadStrPad(fp, name, NameLen);
    if n != NameLen {
      return false, false;
    }
    assert name[..] == name[..NameLen];
    var str := CString(name[..]);
    CStringOfBlanked(fp.data[NameAt..CopyrightAt]);
    pf.name := heap.Malloc<byte>(|str| + 1);
    if pf.name == null {
      return false, true;
    }
    Strcpy(pf.name, str);
    ok := true;
  }

  /** `strcpy`: the string, then its terminating NUL. */
  method Strcpy(dst: array<byte>, str: seq<byte>)
    requires dst.Length == |str| + 1
    modifies dst
    ensures dst[..] == str + [Nul]
  {
    forall j | 0 <= j < |str| {
      dst[j] := str[j];
    }
    dst[|str|] := Nul;
  }

  /**
   * One count of variable data and its buffer: the count is read, then a
   * buffer of that many entries is allocated, always or only for a nonzero
   * count.
   */
  method ReadCount<T(0)>(fp: Stream, heap: Heap, always: bool)
    returns (ok: bool, ghost oom: bool, n: u32, buf: array?<T>)
    requires fp.Valid()
    modifies fp`pos, heap`live, heap`failures
    ensures fp.Valid()
    ensures buf == null ==> heap.live == old(heap.live)
    ensures buf != null ==> fresh(buf) && buf.Length == n && heap.live == old(heap.live) + {buf}
    ensures ok ==>
      old(fp.pos) + 4 <= |fp.data| && fp.pos == old(fp.pos) + 4 &&
      n == LongAt(fp.data, old(fp.pos)) && (buf != null <==> always || n != 0)
    ensures !ok ==> buf == null
    ensures heap.failures == old(heap.failures) + (if oom then 1 else 0) && (oom ==> !heap.ample)
    ensures ok ==> !oom
    ensures !ok && !oom ==> |fp.data| < old(fp.pos) + 4
  {
    oom, buf := false, null;
    ok, n := ReadLong(fp);
    if !ok || (!always && n == 0) {
      return;
    }
    buf := heap.Malloc<T>(n);
    if buf == null {
      return false, true, n, buf;
    }
  }

  /**
   * The three counts of variable data, each followed by its allocation: the
   * bitmap always, the offset and width buffers only for a nonzero count.
   */
  method ReadSizes(fp: Stream, pf: CFont, heap: Heap, ghost base: set<object>)
    returns (ok: bool, ghost oom: bool, nbits: u32, noffset: u32, nwidth: u32)
    requires fp.Valid() && fp.pos == NBitsAt
    requires pf.bits == null && pf.offset == null && pf.width == null && Accounted(heap, pf, base)
    modifies fp`pos, heap`live, heap`failures, pf`bits, pf`bitsSize, pf`offset, pf`width
    ensures fp.Valid() && Accounted(heap, pf, base)
    ensures pf.bits != null ==> fresh(pf.bits)
    ensures pf.offset != null ==> fresh(pf.offset)
    ensures pf.width != null ==> fresh(pf.width)
    ensures ok ==>
      fp.pos == HeaderSize &&
      nbits == LongAt(fp.data, NBitsAt) && noffset == LongAt(fp.data, NOffsetAt) &&
      nwidth == LongAt(fp.data, NWidthAt) &&
      pf.bits != null && pf.bits.Length == nbits && pf.bitsSize == nbits &&
      (pf.offset != null <==> noffset != 0) && (pf.offset != null ==> pf.offset.Length == noffset) &&
      (pf.width != null <==> nwidth != 0) && (pf.width != null ==> pf.width.Length == nwidth)
    ensures heap.failures == old(heap.failures) + (if oom then 1 else 0) && (oom ==> !heap.ample)
    ensures ok ==> !oom
    ensures !ok && !oom ==> |fp.data| < HeaderSize
  {
    noffset, nwidth := 0, 0;
    ok, oom, nbits, pf.bits := ReadCount<u16>(fp, heap, true);
    if !ok {
      return;
    }
    pf.bitsSize := nbits;
    ok, oom, noffset, pf.offset := ReadCount<u32>(fp, heap, false);
    if !ok {
      return;
    }
    ok, oom, nwidth, pf.width := ReadCount<byte>(fp, heap, false);
  }

  /**
   * The variable data: the bitmap, then the offsets if there is an offset
   * buffer, then the widths if there is a width buffer, `size` entries each.
   */
  method ReadData(fp: Stream, pf: CFont, nbits: u32, noffset: u32, nwidth: u32) returns (ok: bool)
    requires fp.Valid() && fp.pos == HeaderSize
    requires pf.bits != null && pf.bits.Length == nbits
    requires pf.offset != null <==> noffset != 0
    requires pf.width != null <==> nwidth != 0
    requires pf.offset != null ==> pf.size <= pf.offset.Length
    requires pf.width != null ==> pf.size <= pf.width.Length
    modifies fp`pos, pf.bits, pf.offset, pf.width
    ensures fp.Valid()
    ensures ok <==> DataEnd(pf.size, nbits, noffset, nwidth) <= |fp.data|
    ensures ok ==>
      pf.bits[..] == ShortsAt(fp.data, HeaderSize, nbits) &&
      (pf.offset != null ==> pf.offset[..pf.size] == LongsAt(fp.data, OffsetsStart(nbits), pf.size)) &&
      (pf.width != null ==>
        var ws := WidthsStart(pf.size, nbits, noffset);
        pf.width[..pf.size] == fp.data[ws..ws + pf.size])
  {
    ok := FillBits(fp, pf.bits, nbits);
    if !ok {
      return;
    }
    assert pf.bits[..] == pf.bits[..nbits];
    if pf.offset != null {
      ok := FillOffsets(fp, pf.offset, pf.size);
      if !ok {
        return;
      }
    }
    if pf.width != null {
      ok := FillWidths(fp, pf.width, pf.size);
    }
  }

  /** A load that stops before the header is complete fails to decode. */
  lemma ShortHeaderFails(s: seq<byte>)
    requires |s| < HeaderSize
    ensures Decode(s).Failure?
  {
  }

  /** A load that stops inside the variable data fails to decode. */
  lemma ShortDataFails(s: seq<byte>)
    requires HeaderSize <= |s| < FileLength(s)
    ensures Decode(s).Failure?
  {
  }

  /** A complete header whose counts would let a fill loop overrun its buffer fails to decode. */
  lemma OverrunFails(s: seq<byte>)
    requires 4 <= |s| && s[..4] == Magic && HeaderSize <= |s|
    requires Overruns(LongAt(s, SizeAt), LongAt(s, NOffsetAt), LongAt(s, NWidthAt))
    ensures Decode(s) == Failure(Overrun)
  {
  }

  /** What the loader has read, field by field, is the decoded font. */
  lemma LoadedImage(s: seq<byte>, pf: CFont, nbits: u32, noffset: u32, nwidth: u32)
    requires |s| >= 4 && s[..4] == Magic && HeaderSize <= |s|
    requires nbits == LongAt(s, NBitsAt) && noffset == LongAt(s, NOffsetAt) && nwidth == LongAt(s, NWidthAt)
    requires pf.size == LongAt(s, SizeAt) && !Overruns(pf.size, noffset, nwidth)
    requires pf.bitsSize == nbits
    requires pf.offset != null ==> pf.offset.Length == noffset
    requires pf.width != null ==> pf.width.Length == nwidth
    requires DataEnd(pf.size, nbits, noffset, nwidth) <= |s|
    requires pf.Valid() && pf.name[..] == CString(TrimRight(s[NameAt..CopyrightAt])) + [Nul]
    requires pf.maxwidth == ShortAt(s, MaxWidthAt) && pf.height == ShortAt(s, HeightAt)
    requires pf.ascent == ShortAt(s, AscentAt) && pf.firstchar == LongAt(s, FirstCharAt)
    requires pf.defaultchar == LongAt(s, DefaultCharAt)
    requires pf.bits[..] == ShortsAt(s, HeaderSize, nbits)
    requires pf.offset != null <==> noffset != 0
    requires pf.width != null <==> nwidth != 0
    requires pf.offset != null ==> pf.offset[..pf.size] == LongsAt(s, OffsetsStart(nbits), pf.size)
    requires pf.width != null ==>
      var ws := WidthsStart(pf.size, nbits, noffset);
      pf.width[..pf.size] == s[ws..ws + pf.size]
    ensures Loaded(pf, s)
  {
    var want := DecodedFields(s);
    ImageOfFields(pf, want);
  }

  /**
   * The image a file with a complete header and all its sections decodes to,
   * field by field. This only unfolds Decode's success branch, so that
   * LoadedImage can use it without the record's state in scope.
   */
  lemma DecodedFields(s: seq<byte>) returns (want: FontImage)
    requires |s| >= 4 && s[..4] == Magic && HeaderSize <= |s|
    requires !Overruns(LongAt(s, SizeAt), LongAt(s, NOffsetAt), LongAt(s, NWidthAt))
    requires FileLength(s) <= |s|
    ensures Decode(s) == Success(want)
    ensures
      var size, nbits := LongAt(s, SizeAt), LongAt(s, NBitsAt);
      var noffset, nwidth := LongAt(s, NOffsetAt), LongAt(s, NWidthAt);
      var ws := WidthsStart(size, nbits, noffset);
      want == FontImage(
        CString(TrimRight(s[NameAt..CopyrightAt])), ShortAt(s, MaxWidthAt), ShortAt(s, HeightAt),
        ShortAt(s, AscentAt), LongAt(s, FirstCharAt), LongAt(s, DefaultCharAt), size,
        ShortsAt(s, HeaderSize, nbits),
        if noffset != 0 then Some(LongsAt(s, OffsetsStart(nbits), size)) else None,
        if nwidth != 0 then Some(s[ws..ws + size]) else None)
  {
    want := Decode(s).value;
  }

  /** The image of a record is determined field by field. */
  lemma ImageOfFields(pf: CFont, im: FontImage)
    requires pf.Valid()
    requires pf.name[..] == im.name + [Nul]
    requires pf.maxwidth == im.maxwidth && pf.height == im.height && pf.ascent == im.ascent
    requires pf.firstchar == im.firstchar && pf.defaultchar == im.defaultchar && pf.size == im.size
    requires pf.bits[..] == im.bits
    requires im.offsets == if pf.offset != null then Some(pf.offset[..pf.size]) else None
    requires im.widths == if pf.width != null then Some(pf.width[..pf.size]) else None
    ensures pf.Image() == im
  {
    assert pf.name[..pf.name.Length - 1] == pf.name[..][..pf.name.Length - 1];
  }

  /** The record holds everything a successful load of `s` promises. */
  ghost predicate Loaded(pf: CFont, s: seq<byte>)
    reads pf, pf.name, pf.bits, pf.offset, pf.width
  {
    pf.Valid() && HeaderSize <= |s| &&
    Decode(s).Success? && pf.Image() == Decode(s).value &&
    pf.bitsSize == LongAt(s, NBitsAt) &&
    (pf.offset != null ==> pf.offset.Length == LongAt(s, NOffsetAt)) &&
    (pf.width != null ==> pf.width.Length == LongAt(s, NWidthAt))
  }

  /**
   * fnt_load_font from the data sizes on: the three counts with their
   * allocations, the check that no fill loop overruns its buffer, and the
   * data. Each early return with `ok` false is a jump to the error exit.
   */
  method ReadVariable(ifp: Stream, pf: CFont, heap: Heap, ghost base: set<object>) returns (ok: bool, ghost oom: bool)
    requires ifp.Valid() && ifp.pos == NBitsAt && 4 <= |ifp.data| && ifp.data[..4] == Magic
    requires pf.bits == null && pf.offset == null && pf.width == null && Accounted(heap, pf, base)
    requires pf.name != null && 1 <= pf.name.Length && pf.name[pf.name.Length - 1] == Nul
    requires forall j | 0 <= j < pf.name.Length - 1 :: pf.name[j] != Nul
    requires pf.name[..] == CString(TrimRight(ifp.data[NameAt..CopyrightAt])) + [Nul]
    requires
      pf.maxwidth == ShortAt(ifp.data, MaxWidthAt) && pf.height == ShortAt(ifp.data, HeightAt) &&
      pf.ascent == ShortAt(ifp.data, AscentAt) && pf.firstchar == LongAt(ifp.data, FirstCharAt) &&
      pf.defaultchar == LongAt(ifp.data, DefaultCharAt) && pf.size == LongAt(ifp.data, SizeAt)
    modifies ifp`pos, heap`live, heap`failures, pf`bits, pf`bitsSize, pf`offset, pf`width
    ensures ifp.Valid() && Accounted(heap, pf, base)
    ensures heap.failures == old(heap.failures) + (if oom then 1 else 0) && (oom ==> !heap.ample)
    ensures ok ==> !oom
    ensures !ok ==> oom || Decode(ifp.data).Failure?
    ensures ok ==> Loaded(pf, ifp.data)
  {
    ghost var s := ifp.data;
    var nbits, noffset, nwidth;
    ok, oom, nbits, noffset, nwidth := ReadSizes(ifp, pf, heap, base);
    if !ok {
      if !oom {
        ShortHeaderFails(s);
      }
      return;
    }

    if Overruns(pf.size, noffset, nwidth) {
      OverrunFails(s);
      return false, oom;
    }

    // variable font data
    ok := ReadData(ifp, pf, nbits, noffset, nwidth);
    if !ok {
      ShortDataFails(s);
      return;
    }

    LoadedImage(s, pf, nbits, noffset, nwidth);
  }

  /**
   * fnt_load_font after the record is allocated: the name, the copyright,
   * the font info, the data sizes with their allocations, and the data.
   * Each early return with `ok` false is a jump to the error exit.
   */
  method ReadRecord(ifp: Stream, pf: CFont, heap: Heap, ghost base: set<object>) returns (ok: bool, ghost oom: bool)
    requires ifp.Valid() && ifp.pos == NameAt && 4 <= |ifp.data| && ifp.data[..4] == Magic
    requires pf.Empty() && Accounted(heap, pf, base)
    modifies ifp`pos, heap`live, heap`failures, pf
    ensures ifp.Valid() && Accounted(heap, pf, base)
    ensures heap.failures == old(heap.failures) + (if oom then 1 else 0) && (oom ==> !heap.ample)
    ensures ok ==> !oom
    ensures !ok ==> oom || Decode(ifp.data).Failure?
    ensures ok ==> Loaded(pf, ifp.data)
  {
    ghost var s := ifp.data;

    // internal font name
    ok, oom := ReadName(ifp, pf, heap, base);
    if !ok {
      if !oom {
        ShortHeaderFails(s);
      }
      return;
    }

    // copyright, not stored
    var copyright := new byte[CopyrightLen];
    var n := ReadStrPad(ifp, copyright, CopyrightLen);
    if n != CopyrightLen {
      ShortHeaderFails(s);
      return false, oom;
    }

    // font info
    ok := ReadFontInfo(ifp, pf);
    if !ok {
      ShortHeaderFails(s);
      return;
    }

    ok, oom := ReadVariable(ifp, pf, heap, base);
  }

  /**
   * The body of fnt_load_font between opening and closing the file: the
   * version check, the allocation of the record, then `ReadRecord`. `pf` is
   * the record allocated so far, if any; with `ok` false the caller takes the
   * error exit.
   */
  method ReadFont(ifp: Stream, heap: Heap, ghost base: set<object>) returns (ok: bool, pf: CFont?, ghost oom: bool)
    requires ifp.Valid() && ifp.pos == 0 && heap.live == base
    modifies ifp`pos, heap`live, heap`failures
    ensures ifp.Valid()
    ensures pf == null ==> !ok && heap.live == base
    ensures pf != null ==> Accounted(heap, pf, base)
    ensures heap.failures == old(heap.failures) + (if oom then 1 else 0) && (oom ==> !heap.ample)
    ensures ok ==> !oom
    ensures !ok ==> oom || Decode(ifp.data).Failure?
    ensures ok ==> pf != null && Loaded(pf, ifp.data)
  {
    ok, pf, oom := false, null, false;

    // magic and version number
    var version := new byte[4];
    var n := ReadStr(ifp, version, 4);
    if n != 4 {
      return;
    }
    MagicExact(version[..]);
    if CString(version[..]) != Magic {
      return;
    }

    pf := CallocFont(heap);
    if pf == null {
      oom := true;
      return;
    }
    ok, oom := ReadRecord(ifp, pf, heap, base);
  }

  /**
   * fnt_load_font. Opens `path`, reads the header field by field, allocates
   * the record and its buffers as the counts in the header say, fills them,
   * and returns the record; on any failure it closes the file, frees all it
   * allocated and returns null. `oom` records that an allocation failed.
   *
   * A header whose nonzero offset or width count is smaller than `size` is
   * refused before the buffers are filled: the source fills `size` entries
   * whatever the count (see `FntFormat.FillIndices`).
   */
  method LoadFont(files: map<seq<char>, seq<byte>>, path: seq<char>, heap: Heap)
    returns (pf: CFont?, ghost oom: bool)
    modifies heap`live, heap`failures
    ensures pf == null ==> heap.live == old(heap.live)
    ensures path !in files ==> pf == null
    ensures heap.failures == old(heap.failures) + (if oom then 1 else 0) && (oom ==> !heap.ample)
    ensures path in files ==> (pf != null <==> Decode(files[path]).Success? && !oom)
    ensures heap.ample && path in files && Decode(files[path]).Success? ==> pf != null
    ensures pf != null ==>
      path in files && pf.Valid() &&
      pf.Owned() !! old(heap.live) && heap.live == old(heap.live) + pf.Owned() &&
      pf.Image() == Decode(files[path]).value &&
      pf.bitsSize == LongAt(files[path], NBitsAt) &&
      (pf.offset != null ==> pf.offset.Length == LongAt(files[path], NOffsetAt)) &&
      (pf.width != null ==> pf.width.Length == LongAt(files[path], NWidthAt))
  {
    oom := false;
    var ifp := Fopen(files, path, heap);
    if ifp == null {
      return null, oom;
    }
    ghost var base := heap.live;
    var ok;
    ok, pf, oom := ReadFont(ifp, heap, base);
    if ok {
      Fclose(ifp, heap);
      return;
    }

    // errout
    Fclose(ifp, heap);
    if pf == null {
      return;
    }
    FreeRecord(pf, heap);
    pf := null;
  }

  // ---------------------------------------------------------------------
  // Creating and unloading

  /**
   * fnt_unloadfont: frees each buffer of the record, the record, then the
   * handle itself.
   */
  method UnloadFont(font: CoreFont, heap: Heap)
    requires font in heap.live
    requires font.cfont != null ==> font.cfont.Owned() <= heap.live && font.cfont.Separate()
    modifies heap`live
    ensures heap.live == old(heap.live) - {font} - (if font.cfont != null then font.cfont.Owned() else {})
  {
    var pfc := font.cfont;
    if pfc != null {
      FreeRecord(pfc, heap);
    }
    heap.Free(font);
  }

  /**
   * fnt_createfont as written: when the handle cannot be allocated, only the
   * record is freed, and the buffers it points to stay allocated with
   * nothing pointing to them. `stranded` is that set of blocks.
   */
  method CreateFontAsWritten(files: map<seq<char>, seq<byte>>, path: seq<char>, heap: Heap)
    returns (pf: CoreFont?, ghost loaded: bool, ghost oom: bool, ghost stranded: set<object>)
    modifies heap`live, heap`failures
    ensures loaded <==> path in files && Decode(files[path]).Success? && !oom
    ensures heap.failures == old(heap.failures) + (if oom then 1 else 0) + (if loaded && pf == null then 1 else 0)
    ensures oom || (loaded && pf == null) ==> !heap.ample
    ensures pf != null ==> loaded && stranded == {}
    ensures pf == null ==> heap.live == old(heap.live) + stranded && stranded !! old(heap.live)
    ensures loaded && pf == null ==> stranded != {} && heap.live != old(heap.live)
  {
    stranded := {};
    var cfont;
    cfont, oom := LoadFont(files, path, heap);
    loaded := cfont != null;
    if cfont == null {
      return null, loaded, oom, stranded;
    }
    pf := MallocCoreFont(heap);
    if pf == null {
      heap.Free(cfont);
      stranded := cfont.Owned() - {cfont};
      assert cfont.name in stranded;
      return;
    }
    pf.fontsize, pf.fontrotation, pf.fontattr := 0, 0, 0;
    pf.name := "FNT";
    pf.cfont := cfont;
  }

  /**
   * The second half of fnt_createfont: allocates the handle for a loaded
   * record and fills it in. When the handle cannot be allocated the whole
   * record is freed, buffers included.
   */
  method WrapFont(cfont: CFont, heap: Heap) returns (pf: CoreFont?)
    requires cfont.Owned() <= heap.live && cfont.Separate()
    modifies heap`live, heap`failures
    ensures pf == null ==>
      heap.live == old(heap.live) - cfont.Owned() && !heap.ample && heap.failures == old(heap.failures) + 1
    ensures pf != null ==>
      fresh(pf) && pf.cfont == cfont &&
      pf.fontsize == 0 && pf.fontrotation == 0 && pf.fontattr == 0 && pf.name == "FNT" &&
      heap.live == old(heap.live) + {pf} && heap.failures == old(heap.failures)
  {
    pf := MallocCoreFont(heap);
    if pf == null {
      FreeRecord(cfont, heap);
      return;
    }
    pf.fontsize, pf.fontrotation, pf.fontattr := 0, 0, 0;
    pf.name := "FNT";
    pf.cfont := cfont;
  }

  /**
   * fnt_createfont: loads the font and wraps it in a handle with size,
   * rotation and attributes zero and the name "FNT". On failure nothing is
   * left allocated: when the handle cannot be allocated the whole record is
   * freed, buffers included.
   */
  method CreateFont(files: map<seq<char>, seq<byte>>, path: seq<char>, heap: Heap)
    returns (pf: CoreFont?, ghost oom: bool)
    modifies heap`live, heap`failures
    ensures pf == null ==> heap.live == old(heap.live)
    ensures heap.failures == old(heap.failures) + (if oom then 1 else 0) && (oom ==> !heap.ample)
    ensures path in files ==> (pf != null <==> Decode(files[path]).Success? && !oom)
    ensures heap.ample && path in files && Decode(files[path]).Success? ==> pf != null
    ensures pf != null ==>
      path in files && fresh(pf) && pf.cfont != null && pf.cfont.Valid() &&
      pf.fontsize == 0 && pf.fontrotation == 0 && pf.fontattr == 0 && pf.name == "FNT" &&
      Decode(files[path]).Success? && pf.cfont.Image() == Decode(files[path]).value &&
      pf.cfont.Owned() !! old(heap.live) &&
      heap.live == old(heap.live) + {pf} + pf.cfont.Owned()
  {
    var cfont;
    cfont, oom := LoadFont(files, path, heap);
    if cfont == null {
      return null, oom;
    }
    pf := WrapFont(cfont, heap);
    if pf == null {
      oom := true;
    }
  }
}
