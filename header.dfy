/**
 * The DPXImage constructor: the magic number picks the file's byte order and
 * the rest of the header is read at fixed offsets of the file header, the
 * image information header (at 768) and its first image element record.
 */
module Header {
  import opened Results
  import opened Bytes

  /** "SDPX" read big-endian: a big-endian file. */
  const MagicBigEndian: int := 0x53445058
  /** "XPDS" read big-endian: the same bytes reversed, a little-endian file. */
  const MagicLittleEndian: int := 0x58504453

  const IIHeaderOffset: nat := 768
  const ImageElementSize: nat := 72

  /** Start of image element record `element` inside the image information header. */
  function ElementOffset(element: nat): nat
  {
    IIHeaderOffset + 12 + element * ImageElementSize
  }

  /** One past the last header byte the constructor reads (packing of element 0). */
  const HeaderEnd: nat := 806

  /** The first four bytes of a big-endian and of a little-endian file. */
  const BigEndianSignature: seq<Byte> := [0x53, 0x44, 0x50, 0x58]
  const LittleEndianSignature: seq<Byte> := [0x58, 0x50, 0x44, 0x53]

  datatype HeaderError =
    | TruncatedHeader          // a DataView read ran past the end of the buffer
    | NotDpx(magic: int)       // "Invalid format: not a DPX file"

  /** The fields the constructor stores; the description's tables are looked up later. */
  datatype ImageHeader = ImageHeader(
    littleEndian: bool,
    offset: int,
    width: int,
    height: int,
    description: int,
    bitSize: int,
    packing: int)

  /** The ranges the header's fields can hold given their widths on disk. */
  predicate WellFormed(h: ImageHeader)
  {
    0 <= h.offset < TWO32 && 0 <= h.width < TWO32 && 0 <= h.height < TWO32 &&
    0 <= h.description < 256 && 0 <= h.bitSize < 256 && 0 <= h.packing < TWO16
  }

  /** `buf` holds the fields of `h` at the header's offsets, in h's byte order. */
  predicate Encodes(h: ImageHeader, buf: seq<Byte>)
    requires WellFormed(h)
  {
    var le := h.littleEndian;
    var e := ElementOffset(0);
    HeaderEnd <= |buf| &&
    buf[..4] == (if le then LittleEndianSignature else BigEndianSignature) &&
    buf[4..8] == Bytes32(h.offset, le) &&
    buf[IIHeaderOffset + 4..IIHeaderOffset + 8] == Bytes32(h.width, le) &&
    buf[IIHeaderOffset + 8..IIHeaderOffset + 12] == Bytes32(h.height, le) &&
    buf[e + 20] == h.description &&
    buf[e + 23] == h.bitSize &&
    buf[e + 24..e + 26] == Bytes16(h.packing, le)
  }

  /** The field reads after the magic check, in the order the constructor makes them. */
  function ReadFields(buf: seq<Byte>, le: bool): (r: Option<ImageHeader>)
    ensures r.Some? <==> HeaderEnd <= |buf|
    ensures r.Some? ==> r.value.littleEndian == le && WellFormed(r.value)
  {
    var offset :- U32(buf, 4, le);
    var width :- U32(buf, IIHeaderOffset + 4, le);
    var height :- U32(buf, IIHeaderOffset + 8, le);
    var description :- U8(buf, ElementOffset(0) + 20);
    var bitSize :- U8(buf, ElementOffset(0) + 23);
    var packing :- U16(buf, ElementOffset(0) + 24, le);
    Some(ImageHeader(le, offset, width, height, description, bitSize, packing))
  }

  /** new DPXImage(buffer): the header, or the error the constructor throws. */
  function ParseHeader(buf: seq<Byte>): (r: Result<ImageHeader, HeaderError>)
    ensures r.Ok? <==>
      HeaderEnd <= |buf| && (buf[..4] == BigEndianSignature || buf[..4] == LittleEndianSignature)
    ensures r.Ok? ==> WellFormed(r.value) && Encodes(r.value, buf)
    ensures r.Ok? ==> (r.value.littleEndian <==> buf[..4] == LittleEndianSignature)
    ensures r == Err(TruncatedHeader) <==>
      |buf| < 4 ||
      (|buf| < HeaderEnd && (buf[..4] == BigEndianSignature || buf[..4] == LittleEndianSignature))
    ensures r.Err? && r.error.NotDpx? <==>
      4 <= |buf| && buf[..4] != BigEndianSignature && buf[..4] != LittleEndianSignature
  {
    match U32(buf, 0, false)
    case None => Err(TruncatedHeader)
    case Some(magic) =>
      MagicSignatures(buf, magic);
      if magic == MagicBigEndian then
        match ReadFields(buf, false)
        case None => Err(TruncatedHeader)
        case Some(h) => FieldsEncoded(buf, h); Ok(h)
      else if magic == MagicLittleEndian then
        match ReadFields(buf, true)
        case None => Err(TruncatedHeader)
        case Some(h) => FieldsEncoded(buf, h); Ok(h)
      else Err(NotDpx(magic))
  }

  /** The big-endian magic read equals one of the two constants exactly when the bytes are its signature. */
  lemma MagicSignatures(buf: seq<Byte>, magic: int)
    requires U32(buf, 0, false) == Some(magic)
    ensures magic == MagicBigEndian <==> buf[..4] == BigEndianSignature
    ensures magic == MagicLittleEndian <==> buf[..4] == LittleEndianSignature
  {
    assert buf[..4] == buf[0..4];
    assert Bytes32(MagicBigEndian, false) == BigEndianSignature;
    assert Bytes32(MagicLittleEndian, false) == LittleEndianSignature;
    Word32Bytes32(magic, false);
    Word32Bytes32(MagicBigEndian, false);
    Word32Bytes32(MagicLittleEndian, false);
  }

  /**
   * The two signatures are each other's byte reversal, so either one read in
   * the other byte order gives the other magic number: a file holding the
   * magic 0x53445058 written little-endian starts with the bytes "XPDS".
   */
  lemma MagicsReversed()
    ensures LittleEndianSignature == [BigEndianSignature[3], BigEndianSignature[2], BigEndianSignature[1], BigEndianSignature[0]]
    ensures Word32(LittleEndianSignature, true) == MagicBigEndian
    ensures Word32(BigEndianSignature, true) == MagicLittleEndian
  {
    Word32Reversed(LittleEndianSignature);
    Word32Reversed(BigEndianSignature);
  }

  /** The header ReadFields returns is laid out in the buffer it was read from. */
  lemma FieldsEncoded(buf: seq<Byte>, h: ImageHeader)
    requires ReadFields(buf, h.littleEndian) == Some(h)
    requires buf[..4] == (if h.littleEndian then LittleEndianSignature else BigEndianSignature)
    ensures WellFormed(h) && Encodes(h, buf)
  {
  }

  /**
   * Parsing is the inverse of laying out a header: a buffer parses to `h`
   * exactly when it carries h's fields at their offsets behind h's signature.
   */
  lemma ParseHeaderExactly(buf: seq<Byte>, h: ImageHeader)
    ensures ParseHeader(buf) == Ok(h) <==> WellFormed(h) && Encodes(h, buf)
  {
    if WellFormed(h) && Encodes(h, buf) {
      var le := h.littleEndian;
      var e := ElementOffset(0);
      Word32Bytes32(h.offset, le);
      Word32Bytes32(h.width, le);
      Word32Bytes32(h.height, le);
      Word16Bytes16(h.packing, le);
      assert U32(buf, 4, le) == Some(h.offset);
      assert U32(buf, IIHeaderOffset + 4, le) == Some(h.width);
      assert U32(buf, IIHeaderOffset + 8, le) == Some(h.height);
      assert U16(buf, e + 24, le) == Some(h.packing);
      assert ReadFields(buf, le) == Some(h);
      assert BigEndianSignature != LittleEndianSignature by {
        assert BigEndianSignature[0] != LittleEndianSignature[0];
      }
    }
  }

  /** A buffer that starts with neither signature is refused whatever follows. */
  lemma NotDpxWhateverFollows(buf: seq<Byte>, rest: seq<Byte>)
    requires 4 <= |buf|
    requires ParseHeader(buf).Err? && ParseHeader(buf).error.NotDpx?
    ensures ParseHeader(buf + rest) == ParseHeader(buf)
  {
    assert (buf + rest)[..4] == buf[..4];
    assert (buf + rest)[0..4] == buf[0..4];
  }
}
