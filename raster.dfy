/**
 * The pixel loop of paintImage: rows top to bottom, pixels left to right,
 * channels 0, 1 and 2 read through readComponent into an RGBA8 array and the
 * alpha slot set to 255. The first error aborts the whole fill.
 *
 * The fill order is specified over any sample reader `read(x, y, c)`;
 * DecodeImage instantiates it with readComponent for one header and buffer.
 */
module Raster {
  import opened Results
  import opened Bytes
  import opened Layout
  import opened Header
  import opened Pixel

  type Reader = (nat, nat, nat) -> Result<Byte, PixelError>

  /** readComponent for one decoded header and its file buffer. */
  function ReaderOf(h: ImageHeader, buf: seq<Byte>): Reader
  {
    (x: nat, y: nat, c: nat) => ReadComponent(h, buf, x, y, c)
  }

  /** The four bytes one pixel contributes, reading channels 0, 1, 2 in that order. */
  function PixelRgba(read: Reader, x: nat, y: nat): (r: Result<seq<Byte>, PixelError>)
    ensures r.Ok? <==> read(x, y, 0).Ok? && read(x, y, 1).Ok? && read(x, y, 2).Ok?
    ensures r.Ok? ==> r.value == [read(x, y, 0).value, read(x, y, 1).value, read(x, y, 2).value, 255]
    ensures r.Err? ==>
      (read(x, y, 0).Err? && r.error == read(x, y, 0).error) ||
      (read(x, y, 0).Ok? && read(x, y, 1).Err? && r.error == read(x, y, 1).error) ||
      (read(x, y, 0).Ok? && read(x, y, 1).Ok? && read(x, y, 2).Err? && r.error == read(x, y, 2).error)
  {
    var red :- read(x, y, 0);
    var green :- read(x, y, 1);
    var blue :- read(x, y, 2);
    Ok([red, green, blue, 255])
  }

  /** Bytes of the first `n` pixels of row `y`. */
  function RowPrefix(read: Reader, y: nat, n: nat): Result<seq<Byte>, PixelError>
  {
    if n == 0 then Ok([])
    else
      var front :- RowPrefix(read, y, n - 1);
      var last :- PixelRgba(read, n - 1, y);
      Ok(front + last)
  }

  /** Bytes of the first `m` full rows of an image `width` pixels wide. */
  function RowsPrefix(read: Reader, width: nat, m: nat): Result<seq<Byte>, PixelError>
  {
    if m == 0 then Ok([])
    else
      var front :- RowsPrefix(read, width, m - 1);
      var row :- RowPrefix(read, m - 1, width);
      Ok(front + row)
  }

  /** The raster paintImage fills, or the first error it meets. */
  function DecodeImage(h: ImageHeader, buf: seq<Byte>): (r: Result<seq<Byte>, PixelError>)
    requires WellFormed(h)
    ensures r.Ok? ==> |r.value| == 4 * h.width * h.height
  {
    RowsPrefixOk(ReaderOf(h, buf), h.width, h.height);
    RowsPrefix(ReaderOf(h, buf), h.width, h.height)
  }

  /** Every read of the first `n` pixels of row `y` succeeds. */
  predicate RowReadsSucceed(read: Reader, y: nat, n: nat)
  {
    forall x: nat, k: nat :: x < n && k < 3 ==> read(x, y, k).Ok?
  }

  /** Every read of the first `m` rows succeeds. */
  predicate RowsReadsSucceed(read: Reader, width: nat, m: nat)
  {
    forall y: nat, x: nat, k: nat :: y < m && x < width && k < 3 ==> read(x, y, k).Ok?
  }

  /** Read (x, y, k) fails, with error e, and every read the fill makes before it succeeds. */
  predicate FirstFailure(read: Reader, width: nat, x: nat, y: nat, k: nat, e: PixelError)
  {
    read(x, y, k) == Err(e) &&
    RowsReadsSucceed(read, width, y) &&
    RowReadsSucceed(read, y, x) &&
    forall k': nat :: k' < k ==> read(x, y, k').Ok?
  }

  // ---- one row ----

  lemma {:induction false} RowPrefixOk(read: Reader, y: nat, n: nat)
    ensures RowPrefix(read, y, n).Ok? <==> RowReadsSucceed(read, y, n)
    ensures RowPrefix(read, y, n).Ok? ==> |RowPrefix(read, y, n).value| == 4 * n
  {
    if n > 0 {
      RowPrefixOk(read, y, n - 1);
      if RowReadsSucceed(read, y, n) {
        assert RowReadsSucceed(read, y, n - 1);
        assert read(n - 1, y, 0).Ok? && read(n - 1, y, 1).Ok? && read(n - 1, y, 2).Ok?;
      }
      if RowPrefix(read, y, n).Ok? {
        forall x: nat, k: nat | x < n && k < 3 ensures read(x, y, k).Ok? {
          if x == n - 1 {
            assert k == 0 || k == 1 || k == 2;
          }
        }
      }
    }
  }

  lemma {:induction false} RowPrefixAt(read: Reader, y: nat, n: nat, x: nat, k: nat)
    requires RowPrefix(read, y, n).Ok?
    requires x < n && k < 4
    ensures |RowPrefix(read, y, n).value| == 4 * n
    ensures k < 3 ==> read(x, y, k).Ok?
    ensures RowPrefix(read, y, n).value[4 * x + k] ==
      if k == 3 then 255 else read(x, y, k).value
  {
    RowPrefixOk(read, y, n);
    RowPrefixOk(read, y, n - 1);
    if x < n - 1 {
      RowPrefixAt(read, y, n - 1, x, k);
    } else {
      assert read(x, y, 0).Ok? && read(x, y, 1).Ok? && read(x, y, 2).Ok?;
    }
  }

  /** A failed row reports the error of its first failing read. */
  lemma {:induction false} RowPrefixError(read: Reader, width: nat, y: nat, n: nat)
    requires RowsReadsSucceed(read, width, y)
    requires RowPrefix(read, y, n).Err?
    ensures exists x: nat, k: nat ::
              x < n && k < 3 && FirstFailure(read, width, x, y, k, RowPrefix(read, y, n).error)
  {
    var e := RowPrefix(read, y, n).error;
    if RowPrefix(read, y, n - 1).Err? {
      RowPrefixError(read, width, y, n - 1);
      var x: nat, k: nat :| x < n - 1 && k < 3 && FirstFailure(read, width, x, y, k, RowPrefix(read, y, n - 1).error);
      assert FirstFailure(read, width, x, y, k, e);
    } else {
      RowPrefixOk(read, y, n - 1);
      var x := n - 1;
      assert PixelRgba(read, x, y) == Err(e);
      if read(x, y, 0).Err? {
        assert FirstFailure(read, width, x, y, 0, e);
      } else if read(x, y, 1).Err? {
        assert FirstFailure(read, width, x, y, 1, e);
      } else {
        assert FirstFailure(read, width, x, y, 2, e);
      }
    }
  }

  /** Once a row fails, every longer prefix of it fails with the same error. */
  lemma {:induction false} RowPrefixErrorPersists(read: Reader, y: nat, n: nat, n': nat)
    requires n <= n' && RowPrefix(read, y, n).Err?
    ensures RowPrefix(read, y, n') == RowPrefix(read, y, n)
  {
    if n < n' {
      RowPrefixErrorPersists(read, y, n, n' - 1);
    }
  }

  // ---- whole rows ----

  lemma {:induction false} RowsPrefixOk(read: Reader, width: nat, m: nat)
    ensures RowsPrefix(read, width, m).Ok? <==> RowsReadsSucceed(read, width, m)
    ensures RowsPrefix(read, width, m).Ok? ==> |RowsPrefix(read, width, m).value| == 4 * width * m
  {
    if m > 0 {
      RowsPrefixOk(read, width, m - 1);
      RowPrefixOk(read, m - 1, width);
      assert 4 * width * m == 4 * width * (m - 1) + 4 * width;
      if RowsReadsSucceed(read, width, m) {
        assert RowsReadsSucceed(read, width, m - 1);
        assert RowReadsSucceed(read, m - 1, width);
      }
      if RowsPrefix(read, width, m).Ok? {
        assert RowReadsSucceed(read, m - 1, width);
        forall y: nat, x: nat, k: nat | y < m && x < width && k < 3 ensures read(x, y, k).Ok? {
          if y == m - 1 {
            assert RowReadsSucceed(read, m - 1, width);
          }
        }
      }
    }
  }

  lemma {:induction false} RowsPrefixAt(read: Reader, width: nat, m: nat, x: nat, y: nat, k: nat)
    requires RowsPrefix(read, width, m).Ok?
    requires y < m && x < width && k < 4
    ensures |RowsPrefix(read, width, m).value| == 4 * width * m
    ensures 4 * (y * width + x) + k < 4 * width * m
    ensures k < 3 ==> read(x, y, k).Ok?
    ensures RowsPrefix(read, width, m).value[4 * (y * width + x) + k] ==
      if k == 3 then 255 else read(x, y, k).value
  {
    RowsPrefixOk(read, width, m);
    RowsPrefixOk(read, width, m - 1);
    var front := RowsPrefix(read, width, m - 1).value;
    var row := RowPrefix(read, m - 1, width).value;
    assert RowsPrefix(read, width, m).value == front + row;
    SlotBounds(width, m, x, y, k);
    if y < m - 1 {
      RowsPrefixAt(read, width, m - 1, x, y, k);
    } else {
      RowPrefixAt(read, m - 1, width, x, k);
    }
  }

  /** A failed fill reports the error of the first failing read in fill order. */
  lemma {:induction false} RowsPrefixError(read: Reader, width: nat, m: nat)
    requires RowsPrefix(read, width, m).Err?
    ensures exists y: nat, x: nat, k: nat ::
              y < m && x < width && k < 3 &&
              FirstFailure(read, width, x, y, k, RowsPrefix(read, width, m).error)
  {
    if RowsPrefix(read, width, m - 1).Err? {
      RowsPrefixError(read, width, m - 1);
      var e := RowsPrefix(read, width, m - 1).error;
      var y: nat, x: nat, k: nat :| y < m - 1 && x < width && k < 3 && FirstFailure(read, width, x, y, k, e);
      assert RowsPrefix(read, width, m).error == e;
    } else {
      RowsPrefixOk(read, width, m - 1);
      RowPrefixError(read, width, m - 1, width);
    }
  }

  /** Once a row fails, the whole fill fails with the same error. */
  lemma {:induction false} RowsPrefixErrorPersists(read: Reader, width: nat, m: nat, m': nat)
    requires m <= m' && RowsPrefix(read, width, m).Err?
    ensures RowsPrefix(read, width, m') == RowsPrefix(read, width, m)
  {
    if m < m' {
      RowsPrefixErrorPersists(read, width, m, m' - 1);
    }
  }

  /** The fill never reads channel 3: readers that agree on channels 0 to 2 fill alike. */
  lemma {:induction false} ChannelThreeIgnored(read: Reader, read': Reader, width: nat, m: nat)
    requires forall x: nat, y: nat, k: nat :: k < 3 ==> read(x, y, k) == read'(x, y, k)
    ensures RowsPrefix(read, width, m) == RowsPrefix(read', width, m)
  {
    if m > 0 {
      ChannelThreeIgnoredRow(read, read', m - 1, width);
      ChannelThreeIgnored(read, read', width, m - 1);
    }
  }

  lemma {:induction false} ChannelThreeIgnoredRow(read: Reader, read': Reader, y: nat, n: nat)
    requires forall x: nat, y: nat, k: nat :: k < 3 ==> read(x, y, k) == read'(x, y, k)
    ensures RowPrefix(read, y, n) == RowPrefix(read', y, n)
  {
    if n > 0 {
      ChannelThreeIgnoredRow(read, read', y, n - 1);
      assert PixelRgba(read, n - 1, y) == PixelRgba(read', n - 1, y) by {
        assert read(n - 1, y, 0) == read'(n - 1, y, 0);
        assert read(n - 1, y, 1) == read'(n - 1, y, 1);
        assert read(n - 1, y, 2) == read'(n - 1, y, 2);
      }
    }
  }

  // ---- slot arithmetic ----

  lemma {:induction false} MulMonotone(a: nat, b: nat, w: nat)
    requires a <= b
    ensures a * w <= b * w
  {
    if a < b {
      MulMonotone(a, b - 1, w);
      assert b * w == (b - 1) * w + w;
    }
  }

  /** Slot k of pixel (x, y) lies in rows 0..m-1, inside row y's stretch of 4 * width bytes. */
  lemma SlotBounds(width: nat, m: nat, x: nat, y: nat, k: nat)
    requires y < m && x < width && k < 4
    ensures 4 * (y * width + x) + k < 4 * width * m
    ensures 4 * (y * width + x) + k == 4 * width * y + 4 * x + k
    ensures (y * width + x) * 4 == 4 * width * y + 4 * x
    ensures (y * width + x) * 4 + k < width * m * 4
  {
    MulMonotone(y + 1, m, width);
    assert (y + 1) * width == y * width + width;
    assert 4 * width * m == 4 * (m * width);
    assert width * m * 4 == 4 * (m * width);
  }

  /** The row starts the loops step through. */
  lemma RowStarts(width: nat, y: nat, height: nat)
    ensures 4 * width * (y + 1) == 4 * width * y + 4 * width
    ensures width * height * 4 == 4 * width * height
  {
  }

  /** Row y of a height-row image ends inside the image's 4 * width * height bytes. */
  lemma RowFits(width: nat, y: nat, height: nat)
    requires y < height
    ensures 4 * width * y + 4 * width <= width * height * 4
  {
    MulMonotone(y + 1, height, width);
    assert (y + 1) * width == y * width + width;
    assert 4 * width * y + 4 * width == 4 * ((y + 1) * width);
    assert width * height * 4 == 4 * (height * width);
  }

  // ---- the fill itself ----

  /** paintImage's pixel loop for one header and buffer, reading through readComponent. */
  method PaintImage(h: ImageHeader, buf: seq<Byte>) returns (r: Result<array<Byte>, PixelError>)
    requires WellFormed(h)
    ensures r.Ok? ==> fresh(r.value) && DecodeImage(h, buf) == Ok(r.value[..])
    ensures r.Err? ==> DecodeImage(h, buf) == Err(r.error)
  {
    r := Fill(ReaderOf(h, buf), h.width, h.height);
  }

  /**
   * The loop itself: fills a fresh width * height * 4 array in place, row by
   * row, and returns it, or returns the first error `read` raises.
   */
  method Fill(read: Reader, width: nat, height: nat) returns (r: Result<array<Byte>, PixelError>)
    ensures r.Ok? ==> fresh(r.value) && RowsPrefix(read, width, height) == Ok(r.value[..])
    ensures r.Err? ==> RowsPrefix(read, width, height) == Err(r.error)
  {
    var data := new Byte[width * height * 4];
    RowStarts(width, 0, height);
    ghost var rowStart: nat := 0;
    var y: nat := 0;
    while y < height
      invariant y <= height
      invariant rowStart == 4 * width * y
      invariant RowsPrefix(read, width, y).Ok?
      invariant rowStart <= data.Length
      invariant data[..rowStart] == RowsPrefix(read, width, y).value
    {
      RowStarts(width, y, height);
      RowFits(width, y, height);
      var failure := FillRow(read, data, width, height, y, rowStart);
      if failure.Some? {
        assert RowsPrefix(read, width, y + 1) == Err(failure.value);
        RowsPrefixErrorPersists(read, width, y + 1, height);
        return Err(failure.value);
      }
      rowStart := rowStart + 4 * width;
      y := y + 1;
    }
    RowStarts(width, y, height);
    assert data[..] == data[..rowStart];
    return Ok(data);
  }

  /** The inner loop: the pixels of row y, left to right, written from `rowStart` on. */
  method FillRow(read: Reader, data: array<Byte>, width: nat, height: nat, y: nat, ghost rowStart: nat)
    returns (failure: Option<PixelError>)
    requires y < height && data.Length == width * height * 4
    requires rowStart == 4 * width * y && rowStart + 4 * width <= data.Length
    modifies data
    ensures failure.None? <==> RowPrefix(read, y, width).Ok?
    ensures failure.Some? ==> RowPrefix(read, y, width) == Err(failure.value)
    ensures failure.None? ==> data[..rowStart + 4 * width] == old(data[..rowStart]) + RowPrefix(read, y, width).value
    ensures data[rowStart + 4 * width..] == old(data[rowStart + 4 * width..])
  {
    ghost var done := data[..rowStart];
    ghost var after := data[rowStart + 4 * width..];
    var x: nat := 0;
    while x < width
      invariant x <= width
      invariant RowPrefix(read, y, x).Ok?
      invariant data[..rowStart + 4 * x] == done + RowPrefix(read, y, x).value
      invariant data[rowStart + 4 * width..] == after
    {
      SlotBounds(width, height, x, y, 3);
      var dstPixelOffset := (y * width + x) * 4;
      assert dstPixelOffset == rowStart + 4 * x;
      ghost var row := RowPrefix(read, y, x).value;
      ghost var painted := data[..dstPixelOffset];
      var pixelFailure := PaintPixel(read, data, dstPixelOffset, x, y);
      if pixelFailure.Some? {
        assert RowPrefix(read, y, x + 1) == Err(pixelFailure.value);
        RowPrefixErrorPersists(read, y, x + 1, width);
        return pixelFailure;
      }
      ghost var pixel := PixelRgba(read, x, y).value;
      assert RowPrefix(read, y, x + 1).value == row + pixel;
      Regroup(done, row, pixel, painted, data[..dstPixelOffset + 4]);
      x := x + 1;
    }
    return None;
  }

  /** The row so far followed by one more pixel is the extended row. */
  lemma Regroup(done: seq<Byte>, row: seq<Byte>, pixel: seq<Byte>, before: seq<Byte>, after: seq<Byte>)
    requires before == done + row && after == before + pixel
    ensures after == done + (row + pixel)
  {
  }

  /** The body of the inner loop: channels 0 to 2 of pixel (x, y) and an opaque alpha, written at `dst`. */
  method PaintPixel(read: Reader, data: array<Byte>, dst: nat, x: nat, y: nat)
    returns (failure: Option<PixelError>)
    requires dst + 4 <= data.Length
    modifies data
    ensures failure.None? <==> PixelRgba(read, x, y).Ok?
    ensures failure.Some? ==> PixelRgba(read, x, y) == Err(failure.value)
    ensures failure.None? ==> data[..dst + 4] == old(data[..dst]) + PixelRgba(read, x, y).value
    ensures data[..dst] == old(data[..dst]) && data[dst + 4..] == old(data[dst + 4..])
  {
    var red := read(x, y, 0);
    if red.Err? {
      return Some(red.error);
    }
    data[dst + 0] := red.value;
    var green := read(x, y, 1);
    if green.Err? {
      return Some(green.error);
    }
    data[dst + 1] := green.value;
    var blue := read(x, y, 2);
    if blue.Err? {
      return Some(blue.error);
    }
    data[dst + 2] := blue.value;
    data[dst + 3] := 255;
    assert data[..dst + 4] == old(data[..dst]) + [red.value, green.value, blue.value, 255];
    return None;
  }

  // ---- the properties of the decoded image ----

  /** The slot of channel k of pixel (x, y) in an RGBA buffer `width` pixels wide. */
  function Slot(width: nat, x: nat, y: nat, k: nat): nat
  {
    4 * (y * width + x) + k
  }

  /**
   * A decoded image has width * height * 4 bytes; slot (y * width + x) * 4 + k
   * holds channel k of pixel (x, y) as readComponent returns it, and slot 3 is 255.
   */
  lemma {:induction false} DecodeImageAt(h: ImageHeader, buf: seq<Byte>, image: seq<Byte>, x: nat, y: nat, k: nat)
    requires WellFormed(h) && DecodeImage(h, buf) == Ok(image)
    requires x < h.width && y < h.height && k < 4
    ensures |image| == 4 * h.width * h.height
    ensures Slot(h.width, x, y, k) < |image|
    ensures k < 3 ==> ReadComponent(h, buf, x, y, k).Ok?
    ensures image[Slot(h.width, x, y, k)] == if k == 3 then 255 else ReadComponent(h, buf, x, y, k).value
  {
    RowsPrefixAt(ReaderOf(h, buf), h.width, h.height, x, y, k);
  }

  /** Decoding succeeds exactly when every channel 0 to 2 read of every pixel succeeds. */
  lemma DecodeImageOk(h: ImageHeader, buf: seq<Byte>)
    requires WellFormed(h)
    ensures DecodeImage(h, buf).Ok? <==>
      forall x: nat, y: nat, k: nat :: x < h.width && y < h.height && k < 3 ==> ReadComponent(h, buf, x, y, k).Ok?
  {
    var read := ReaderOf(h, buf);
    RowsPrefixOk(read, h.width, h.height);
    assert forall x: nat, y: nat, k: nat :: read(x, y, k) == ReadComponent(h, buf, x, y, k);
  }

  /**
   * A failed decode reports the error of the first read that fails in fill
   * order (rows top to bottom, pixels left to right, channels 0, 1, 2).
   */
  lemma DecodeImageError(h: ImageHeader, buf: seq<Byte>)
    requires WellFormed(h) && DecodeImage(h, buf).Err?
    ensures exists x: nat, y: nat, k: nat ::
              x < h.width && y < h.height && k < 3 &&
              FirstFailure(ReaderOf(h, buf), h.width, x, y, k, DecodeImage(h, buf).error)
  {
    RowsPrefixError(ReaderOf(h, buf), h.width, h.height);
  }

  /** An unsupported pixel format fails the whole decode of a non-empty image with that error. */
  lemma DecodeUnsupported(h: ImageHeader, buf: seq<Byte>)
    requires WellFormed(h) && !Supported(h) && 0 < h.width && 0 < h.height
    ensures DecodeImage(h, buf) == Err(UnsupportedPixelType(h.bitSize, h.description, h.packing))
  {
    var read := ReaderOf(h, buf);
    assert read(0, 0, 0) == Err(UnsupportedPixelType(h.bitSize, h.description, h.packing));
    assert RowPrefix(read, 0, 1).Err?;
    RowPrefixErrorPersists(read, 0, 1, h.width);
    assert RowsPrefix(read, h.width, 1).Err?;
    RowsPrefixErrorPersists(read, h.width, 1, h.height);
  }

  /** A two-pixel 8-bit RGB image decodes to its bytes with an opaque alpha after each pixel. */
  lemma DecodeExample(h: ImageHeader, buf: seq<Byte>)
    requires h == ImageHeader(false, 0, 2, 1, 50, 8, 0) && buf == [10, 20, 30, 40, 50, 60]
    ensures DecodeImage(h, buf) == Ok([10, 20, 30, 255, 40, 50, 60, 255])
  {
    TwoPixelImage(h, buf);
  }

  /**
   * A whole file: a big-endian header for the same two-pixel image with its
   * data at offset 806, right after the header, followed by the six bytes.
   * The parse recovers the header, and decoding the file gives the raster.
   */
  lemma ParsedExample(h: ImageHeader, buf: seq<Byte>)
    requires h == ImageHeader(false, HeaderEnd, 2, 1, 50, 8, 0)
    requires Encodes(h, buf) && HeaderEnd + 6 <= |buf|
    requires buf[HeaderEnd..HeaderEnd + 6] == [10, 20, 30, 40, 50, 60]
    ensures ParseHeader(buf) == Ok(h)
    ensures DecodeImage(h, buf) == Ok([10, 20, 30, 255, 40, 50, 60, 255])
  {
    ParseHeaderExactly(buf, h);
    TwoPixelImage(h, buf);
  }

  /** Any 2x1 8-bit RGB image whose six data bytes are 10, 20, ..., 60. */
  lemma TwoPixelImage(h: ImageHeader, buf: seq<Byte>)
    requires WellFormed(h) && h.bitSize == 8 && h.description == 50 && h.width == 2 && h.height == 1
    requires h.offset + 6 <= |buf| && buf[h.offset..h.offset + 6] == [10, 20, 30, 40, 50, 60]
    ensures DecodeImage(h, buf) == Ok([10, 20, 30, 255, 40, 50, 60, 255])
  {
    var data := buf[h.offset..h.offset + 6];
    assert buf[h.offset + 0] == data[0] && buf[h.offset + 1] == data[1] && buf[h.offset + 2] == data[2];
    assert buf[h.offset + 3] == data[3] && buf[h.offset + 4] == data[4] && buf[h.offset + 5] == data[5];
    ExampleRead(h, buf, 0, 0);
    ExampleRead(h, buf, 0, 1);
    ExampleRead(h, buf, 0, 2);
    ExampleRead(h, buf, 1, 0);
    ExampleRead(h, buf, 1, 1);
    ExampleRead(h, buf, 1, 2);
    TwoPixels(ReaderOf(h, buf));
  }

  /** In a 2-pixel-wide 8-bit RGB image, component c of pixel x in row 0 is data byte 3x + c. */
  lemma ExampleRead(h: ImageHeader, buf: seq<Byte>, x: nat, c: nat)
    requires h.bitSize == 8 && h.description == 50 && h.width == 2
    requires 0 <= h.offset && h.offset + 6 <= |buf|
    requires x < 2 && c < 3
    ensures ReadComponent(h, buf, x, 0, c) == Ok(buf[h.offset + 3 * x + c])
  {
    assert NumComponents(50) == Some(3);
  }

  /** Two pixels of one row with the given channel values. */
  lemma TwoPixels(read: Reader)
    requires read(0, 0, 0) == Ok(10) && read(0, 0, 1) == Ok(20) && read(0, 0, 2) == Ok(30)
    requires read(1, 0, 0) == Ok(40) && read(1, 0, 1) == Ok(50) && read(1, 0, 2) == Ok(60)
    ensures RowsPrefix(read, 2, 1) == Ok([10, 20, 30, 255, 40, 50, 60, 255])
  {
    assert PixelRgba(read, 0, 0) == Ok([10, 20, 30, 255]);
    assert PixelRgba(read, 1, 0) == Ok([40, 50, 60, 255]);
    assert RowPrefix(read, 0, 0) == Ok([]);
    assert RowPrefix(read, 0, 1) == Ok([] + [10, 20, 30, 255]);
    assert [] + [10, 20, 30, 255] == [10, 20, 30, 255];
    assert RowPrefix(read, 0, 2) == Ok([10, 20, 30, 255] + [40, 50, 60, 255]);
    assert [10, 20, 30, 255] + [40, 50, 60, 255] == [10, 20, 30, 255, 40, 50, 60, 255];
    assert RowsPrefix(read, 2, 0) == Ok([]);
    assert RowsPrefix(read, 2, 1) == Ok([] + [10, 20, 30, 255, 40, 50, 60, 255]);
    assert [] + [10, 20, 30, 255, 40, 50, 60, 255] == [10, 20, 30, 255, 40, 50, 60, 255];
  }

  /** One byte short of a single RGB pixel: the read of channel 2 fails and names it. */
  lemma TruncatedDataExample()
    ensures DecodeImage(ImageHeader(false, 0, 1, 1, 50, 8, 0), [10, 20]) == Err(ReadFailed(0, 0, 2, 8, 50))
  {
    var h := ImageHeader(false, 0, 1, 1, 50, 8, 0);
    var buf: seq<Byte> := [10, 20];
    assert ReaderOf(h, buf)(0, 0, 2) == Err(ReadFailed(0, 0, 2, 8, 50));
  }
}
