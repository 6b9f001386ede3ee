/**
 * readComponent: one channel sample of one pixel, cut down to eight bits.
 * The header's bit size selects the rule (8, 16, 10 or 12 bits); for 10 bits
 * the description code further selects the RGB or the RGBA packing. Each rule
 * computes a byte address from (x, y, c), reads a byte or word there in the
 * file's byte order, and keeps eight bits of it with a shift and a mask.
 */
module Pixel {
  import opened Results
  import opened Bytes
  import opened Layout
  import opened Header

  datatype PixelError =
    | ReadFailed(x: nat, y: nat, c: nat, bitSize: int, description: int)  // "Failed to read image data"
    | UnsupportedPixelType(bitSize: int, description: int, packing: int)  // "Unsupported pixel type"
    | UnknownDescription(description: int)

  function Pow2(n: nat): (r: nat)
    ensures r >= 1
  {
    if n == 0 then 1 else 2 * Pow2(n - 1)
  }

  /** `w` shifted right by `n` bits, one bit at a time. */
  function ShiftRight(w: nat, n: nat): (r: nat)
    ensures r <= w
  {
    if n == 0 then w else ShiftRight(w / 2, n - 1)
  }

  /** JavaScript's `w >>> s` on a 32-bit unsigned value: the count is taken modulo 32. */
  function Ushr(w: int, s: int): (r: int)
    requires 0 <= w < TWO32
    ensures 0 <= r <= w
    ensures r == w / Pow2(s % 32)
  {
    ShiftRightDiv(w, s % 32);
    ShiftRight(w, s % 32)
  }

  /** Shifting right by n bits divides by 2^n. */
  lemma {:induction false} ShiftRightDiv(w: nat, n: nat)
    ensures ShiftRight(w, n) == w / Pow2(n)
  {
    if n > 0 {
      ShiftRightDiv(w / 2, n - 1);
      HalveThenDivide(w, Pow2(n - 1));
    }
  }

  /** Halving and then dividing by p is dividing by 2p. */
  lemma HalveThenDivide(w: nat, p: nat)
    requires 1 <= p
    ensures (w / 2) / p == w / (2 * p)
  {
    var q, r1 := (w / 2) / p, (w / 2) % p;
    assert w / 2 == q * p + r1 && 0 <= r1 < p;
    assert w == 2 * (w / 2) + w % 2;
    assert 2 * (q * p) == q * (2 * p);
    DivModUnique(w, 2 * p, q, 2 * r1 + w % 2);
  }


  /** `v & 0xFF` for a non-negative v. */
  function Low8(v: int): (r: Byte)
    requires 0 <= v
    ensures r == v % 0x100
  {
    v % 0x100
  }

  /** Row-major index of pixel (x, y). */
  function PixelIndex(h: ImageHeader, x: nat, y: nat): int
  {
    y * h.width + x
  }

  // ---- the byte address each rule reads ----

  function Address8(h: ImageHeader, n: nat, x: nat, y: nat, c: nat): int
  {
    h.offset + PixelIndex(h, x, y) * n + c
  }

  function Address16(h: ImageHeader, n: nat, x: nat, y: nat, c: nat): int
  {
    h.offset + PixelIndex(h, x, y) * n * 2 + 2 * c
  }

  /** 10-bit RGB: one 32-bit word per pixel. */
  function Address10Rgb(h: ImageHeader, x: nat, y: nat): int
  {
    h.offset + PixelIndex(h, x, y) * 4
  }

  /** Index of component c of pixel (x, y) in the 10-bit RGBA stream (four per pixel). */
  function ComponentIndex10Rgba(h: ImageHeader, x: nat, y: nat, c: nat): int
  {
    PixelIndex(h, x, y) * 4 + c
  }

  /** 10-bit RGBA: three components per 32-bit word, across pixel boundaries. */
  function Address10Rgba(h: ImageHeader, x: nat, y: nat, c: nat): int
  {
    h.offset + (ComponentIndex10Rgba(h, x, y, c) / 3) * 4
  }

  /** 12-bit: one 16-bit word per component, three components per pixel. */
  function Address12(h: ImageHeader, x: nat, y: nat, c: nat): int
  {
    h.offset + (PixelIndex(h, x, y) * 3 + c) * 2
  }

  // ---- one function per rule ----

  function Read8(h: ImageHeader, n: nat, buf: seq<Byte>, x: nat, y: nat, c: nat): (r: Result<Byte, PixelError>)
    ensures r.Ok? <==> 0 <= Address8(h, n, x, y, c) < |buf|
    ensures r.Ok? ==> r.value == buf[Address8(h, n, x, y, c)]
  {
    match U8(buf, Address8(h, n, x, y, c))
    case None => Err(ReadFailed(x, y, c, h.bitSize, h.description))
    case Some(v) => Ok(v)
  }

  /** The 16-bit word scaled down by 256 (integer division: its most significant byte). */
  function Read16(h: ImageHeader, n: nat, buf: seq<Byte>, x: nat, y: nat, c: nat): (r: Result<Byte, PixelError>)
    ensures r.Ok? <==> 0 <= Address16(h, n, x, y, c) && Address16(h, n, x, y, c) + 2 <= |buf|
  {
    match U16(buf, Address16(h, n, x, y, c), h.littleEndian)
    case None => Err(ReadFailed(x, y, c, h.bitSize, h.description))
    case Some(word) => Ok(word / 256)
  }

  /**
   * The byte the canvas keeps when paintImage stores word / 256 (an exact
   * fraction) into its clamped byte array: the nearest integer, ties to even,
   * capped at 255. It is never below Read16's quotient and at most one above it.
   */
  function ClampedStore16(word: int): (b: Byte)
    requires 0 <= word < TWO16
    ensures word / 256 <= b <= word / 256 + 1
    ensures b * 256 - 128 <= word
    ensures word <= b * 256 + 128 || b == 255
    ensures word % 256 == 128 && word / 256 < 255 ==> b % 2 == 0
  {
    var q, r := word / 256, word % 256;
    if (r > 128 || (r == 128 && q % 2 == 1)) && q < 255 then q + 1 else q
  }

  /** Top eight bits of field c of the pixel's word; fields are 10 bits wide above 2 padding bits. */
  function Read10Rgb(h: ImageHeader, buf: seq<Byte>, x: nat, y: nat, c: nat): (r: Result<Byte, PixelError>)
    ensures r.Ok? <==> 0 <= Address10Rgb(h, x, y) && Address10Rgb(h, x, y) + 4 <= |buf|
  {
    match U32(buf, Address10Rgb(h, x, y), h.littleEndian)
    case None => Err(ReadFailed(x, y, c, h.bitSize, h.description))
    case Some(pixel) => Ok(Low8(Ushr(pixel, (2 - c) * 10 + 4)))
  }

  function Read10Rgba(h: ImageHeader, buf: seq<Byte>, x: nat, y: nat, c: nat): (r: Result<Byte, PixelError>)
    ensures r.Ok? <==> 0 <= Address10Rgba(h, x, y, c) && Address10Rgba(h, x, y, c) + 4 <= |buf|
  {
    var shift := 24 - (ComponentIndex10Rgba(h, x, y, c) % 3) * 10;
    match U32(buf, Address10Rgba(h, x, y, c), h.littleEndian)
    case None => Err(ReadFailed(x, y, c, h.bitSize, h.description))
    case Some(pixel) => Ok(Low8(Ushr(pixel, shift)))
  }

  function Read12(h: ImageHeader, buf: seq<Byte>, x: nat, y: nat, c: nat): (r: Result<Byte, PixelError>)
    ensures r.Ok? <==> 0 <= Address12(h, x, y, c) && Address12(h, x, y, c) + 2 <= |buf|
  {
    match U16(buf, Address12(h, x, y, c), h.littleEndian)
    case None => Err(ReadFailed(x, y, c, h.bitSize, h.description))
    case Some(raw) => Ok(Low8(Ushr(raw, 8)))
  }

  /** Bit size and description select one of the rules. */
  predicate Supported(h: ImageHeader)
  {
    h.bitSize == 8 || h.bitSize == 16 || h.bitSize == 12 ||
    (h.bitSize == 10 && (h.description == 50 || h.description == 51))
  }

  /** The rules that address through the component count need a known description code. */
  predicate NeedsComponentCount(h: ImageHeader)
  {
    h.bitSize == 8 || h.bitSize == 16
  }

  /** Where the selected rule reads, as (first byte, number of bytes). */
  function Span(h: ImageHeader, x: nat, y: nat, c: nat): (s: (int, nat))
    requires Supported(h)
    requires NeedsComponentCount(h) ==> h.description in DescriptionCodes
    ensures s.1 == h.bitSize / 8 || (h.bitSize == 10 && s.1 == 4) || (h.bitSize == 12 && s.1 == 2)
  {
    if h.bitSize == 8 then (Address8(h, NumComponents(h.description).value, x, y, c), 1)
    else if h.bitSize == 16 then (Address16(h, NumComponents(h.description).value, x, y, c), 2)
    else if h.bitSize == 12 then (Address12(h, x, y, c), 2)
    else if h.description == 50 then (Address10Rgb(h, x, y), 4)
    else (Address10Rgba(h, x, y, c), 4)
  }

  /** DPXImage.prototype.readComponent(x, y, c). */
  function ReadComponent(h: ImageHeader, buf: seq<Byte>, x: nat, y: nat, c: nat): (r: Result<Byte, PixelError>)
    ensures r.Err? ==> r.error in {
      UnsupportedPixelType(h.bitSize, h.description, h.packing),
      UnknownDescription(h.description),
      ReadFailed(x, y, c, h.bitSize, h.description)}
  {
    if h.bitSize == 8 then
      match NumComponents(h.description)
      case None => Err(UnknownDescription(h.description))
      case Some(n) => Read8(h, n, buf, x, y, c)
    else if h.bitSize == 16 then
      match NumComponents(h.description)
      case None => Err(UnknownDescription(h.description))
      case Some(n) => Read16(h, n, buf, x, y, c)
    else if h.bitSize == 10 && h.description == 50 then
      Read10Rgb(h, buf, x, y, c)
    else if h.bitSize == 10 && h.description == 51 then
      Read10Rgba(h, buf, x, y, c)
    else if h.bitSize == 12 then
      Read12(h, buf, x, y, c)
    else
      Err(UnsupportedPixelType(h.bitSize, h.description, h.packing))
  }

  /**
   * When readComponent fails and why: an unsupported format, an unknown
   * description code where the rule needs the component count, or a read
   * outside the buffer; it succeeds exactly when the rule's bytes are inside.
   */
  lemma ReadComponentOutcome(h: ImageHeader, buf: seq<Byte>, x: nat, y: nat, c: nat)
    ensures ReadComponent(h, buf, x, y, c) == Err(UnsupportedPixelType(h.bitSize, h.description, h.packing)) <==> !Supported(h)
    ensures ReadComponent(h, buf, x, y, c) == Err(UnknownDescription(h.description)) <==>
      NeedsComponentCount(h) && h.description !in DescriptionCodes
    ensures ReadComponent(h, buf, x, y, c).Err? ==> ReadComponent(h, buf, x, y, c).error in {
      UnsupportedPixelType(h.bitSize, h.description, h.packing),
      UnknownDescription(h.description),
      ReadFailed(x, y, c, h.bitSize, h.description)}
    ensures ReadComponent(h, buf, x, y, c).Ok? <==>
      Supported(h) && (NeedsComponentCount(h) ==> h.description in DescriptionCodes) &&
      0 <= Span(h, x, y, c).0 && Span(h, x, y, c).0 + Span(h, x, y, c).1 <= |buf|
  {
  }
}
