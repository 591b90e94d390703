/**
 * What `convert_to_rgba` promises about the image it builds: its size, the
 * value of every output pixel in terms of the 32-bit source word, the row
 * flip, the bytes it never reads, and a round trip through the Argb8888
 * memory layout.
 */
module PixelProperties {
  import opened Common
  import opened PixelConvert

  /** The image holds exactly `width * height * 4` bytes. */
  lemma {:induction false} ConvertedSize(data: seq<byte>, width: nat, height: nat, stride: nat, format: ShmFormat, yInvert: bool)
    requires RowsFit(|data|, width, height, stride)
    ensures |Converted(data, width, height, stride, format, yInvert)| == width * height * 4
  {
    ImageSize(width, height);
  }

  /**
   * The channels the source's `match` takes from the word `px`, in R, G, B, A
   * order: `(px >> 16, px >> 8, px, px >> 24)` masked to bytes for Argb8888,
   * the same with alpha `0xff` for Xrgb8888, and opaque black for any other
   * format.
   */
  function Shifted(format: ShmFormat, px: u32): seq<byte> {
    match format
    case Argb8888 => [Channel(px, 16), Channel(px, 8), Channel(px, 0), Channel(px, 24)]
    case Xrgb8888 => [Channel(px, 16), Channel(px, 8), Channel(px, 0), 0xff]
    case OtherFormat(_) => [0, 0, 0, 0xff]
  }

  /** The shift-and-mask channels of a little-endian word are its bytes, in the order `PixelBytes` lists them. */
  lemma {:induction false} ShiftedBytes(format: ShmFormat, b0: byte, b1: byte, b2: byte, b3: byte)
    ensures Shifted(format, Word(b0, b1, b2, b3)) == PixelBytes(format, b0, b1, b2, b3)
  {
    WordChannels(b0, b1, b2, b3);
  }

  /**
   * Output pixel `(x, y)`, at byte `Offset(y, width * 4) + x * 4` (that is
   * `y * width * 4 + x * 4`), holds the channels of the word `px` at byte
   * `Offset(src_y, stride) + x * 4` (that is `src_y * stride + x * 4`).
   */
  lemma {:induction false} ConvertedPixel(data: seq<byte>, width: nat, height: nat, stride: nat, format: ShmFormat, yInvert: bool, x: nat, y: nat)
    requires RowsFit(|data|, width, height, stride) && x < width && y < height
    ensures Offset(SourceRow(height, y, yInvert), stride) + x * 4 + 4 <= |data|
    ensures Offset(y, width * 4) + x * 4 + 4 <= Offset(height, width * 4)
    ensures
      var src := Offset(SourceRow(height, y, yInvert), stride) + x * 4;
      var px := Word(data[src], data[src + 1], data[src + 2], data[src + 3]);
      forall k | 0 <= k < 4 ::
        Converted(data, width, height, stride, format, yInvert)[Offset(y, width * 4) + x * 4 + k] == Shifted(format, px)[k]
  {
    var src := Offset(SourceRow(height, y, yInvert), stride) + x * 4;
    ConvertedByte(data, width, height, stride, format, yInvert, x, y, 0);
    ConvertedByte(data, width, height, stride, format, yInvert, x, y, 1);
    ConvertedByte(data, width, height, stride, format, yInvert, x, y, 2);
    ConvertedByte(data, width, height, stride, format, yInvert, x, y, 3);
    ShiftedBytes(format, data[src], data[src + 1], data[src + 2], data[src + 3]);
  }

  /** With `y_invert`, destination row `y` is the row `height - 1 - y` of the image without it. */
  lemma {:induction false} ConvertedInverted(data: seq<byte>, width: nat, height: nat, stride: nat, format: ShmFormat, y: nat)
    requires RowsFit(|data|, width, height, stride) && y < height
    ensures Offset(y, width * 4) + width * 4 <= Offset(height, width * 4)
    ensures Offset(height - 1 - y, width * 4) + width * 4 <= Offset(height, width * 4)
    ensures forall i | Offset(y, width * 4) <= i < Offset(y, width * 4) + width * 4 ::
      Converted(data, width, height, stride, format, true)[i]
      == Converted(data, width, height, stride, format, false)[i - Offset(y, width * 4) + Offset(height - 1 - y, width * 4)]
  {
    var srcStart := Offset(height - 1 - y, stride);
    ConvertedRowFrom(data, width, height, stride, format, true, y, srcStart);
    ConvertedRowFrom(data, width, height, stride, format, false, height - 1 - y, srcStart);
  }

  /** `data` and `other` agree on the `width * 4` bytes of every source row the converter reads. */
  predicate SameRows(data: seq<byte>, other: seq<byte>, width: nat, height: nat, stride: nat) {
    forall row, i | 0 <= row < height && Offset(row, stride) <= i < Offset(row, stride) + width * 4 ::
      i < |data| && i < |other| && data[i] == other[i]
  }

  /** A converted row depends only on the `4 * n` bytes it starts at. */
  lemma {:induction false} RowRgbaWindow(data: seq<byte>, other: seq<byte>, start: nat, n: nat, format: ShmFormat)
    requires start + 4 * n <= |data| && start + 4 * n <= |other|
    requires forall i | start <= i < start + 4 * n :: data[i] == other[i]
    ensures RowRgba(data, start, n, format) == RowRgba(other, start, n, format)
  {
    if n > 0 {
      RowRgbaWindow(data, other, start, n - 1, format);
      var i := start + 4 * (n - 1);
      assert PixelAt(data, i, format) == PixelAt(other, i, format);
    }
  }

  lemma {:induction false} DestRowsWindows(data: seq<byte>, other: seq<byte>, width: nat, height: nat, stride: nat, format: ShmFormat, yInvert: bool, n: nat)
    requires RowsFit(|data|, width, height, stride) && RowsFit(|other|, width, height, stride) && n <= height
    requires SameRows(data, other, width, height, stride)
    ensures DestRows(data, width, height, stride, format, yInvert, n) == DestRows(other, width, height, stride, format, yInvert, n)
  {
    if n > 0 {
      var init := DestRows(data, width, height, stride, format, yInvert, n - 1);
      assert init == DestRows(other, width, height, stride, format, yInvert, n - 1) by {
        DestRowsWindows(data, other, width, height, stride, format, yInvert, n - 1);
      }
      var last := DestRow(data, width, height, stride, format, yInvert, n - 1);
      assert last == DestRow(other, width, height, stride, format, yInvert, n - 1) by {
        var row := SourceRow(height, n - 1, yInvert);
        RowInside(|data|, width, height, stride, row);
        RowInside(|other|, width, height, stride, row);
        RowRgbaWindow(data, other, Offset(row, stride), width, format);
      }
      assert DestRows(data, width, height, stride, format, yInvert, n) == init + [last];
    }
  }

  /**
   * The converter never reads the padding after the `width * 4` bytes of a
   * row, nor anything outside the `height` rows: buffers that agree on those
   * rows convert to the same image.
   */
  lemma {:induction false} ConvertedIgnoresPadding(data: seq<byte>, other: seq<byte>, width: nat, height: nat, stride: nat, format: ShmFormat, yInvert: bool)
    requires RowsFit(|data|, width, height, stride) && RowsFit(|other|, width, height, stride)
    requires SameRows(data, other, width, height, stride)
    ensures Converted(data, width, height, stride, format, yInvert) == Converted(other, width, height, stride, format, yInvert)
  {
    DestRowsWindows(data, other, width, height, stride, format, yInvert, height);
  }

  /** Where byte `k` of a pixel is kept in an Argb8888 pixel stored little-endian: B, G, R, A. */
  function ArgbSlot(k: nat): (slot: nat)
    requires k < 4
    ensures slot < 4
  {
    if k == 0 then 2 else if k == 2 then 0 else k
  }

  /**
   * An RGBA image laid out as Argb8888 words in a little-endian buffer with no
   * padding: each pixel R, G, B, A is stored as the bytes B, G, R, A.
   */
  function EncodeArgb(rgba: seq<byte>): (data: seq<byte>)
    requires |rgba| % 4 == 0
    ensures |data| == |rgba|
  {
    seq(|rgba|, i requires 0 <= i < |rgba| => rgba[i - i % 4 + ArgbSlot(i % 4)])
  }

  /** A row offset in bytes is four times the row offset in pixels. */
  lemma {:induction false} OffsetPixels(row: nat, width: nat)
    ensures Offset(row, width * 4) == 4 * Offset(row, width)
  {
    if row > 0 {
      OffsetPixels(row - 1, width);
    }
  }

  /** Byte `k` of encoded pixel `p` is the image byte `ArgbSlot(k)` of that pixel. */
  lemma {:induction false} EncodedByte(rgba: seq<byte>, p: nat, k: nat)
    requires |rgba| % 4 == 0 && 4 * p + 4 <= |rgba| && k < 4
    ensures EncodeArgb(rgba)[4 * p + k] == rgba[4 * p + ArgbSlot(k)]
  {
    var i := 4 * p + k;
    assert i % 4 == k;
  }

  /** Byte `k` of the pixel converted from encoded byte offset `i == 4 * p` is byte `k` of image pixel `p`. */
  lemma {:induction false} EncodedPixel(rgba: seq<byte>, i: nat, p: nat, k: nat)
    requires |rgba| % 4 == 0 && i == 4 * p && i + 4 <= |rgba| && k < 4
    ensures PixelAt(EncodeArgb(rgba), i, Argb8888)[k] == rgba[i + k]
  {
    EncodedByte(rgba, p, ArgbSlot(k));
  }

  /** Byte `j` of a run of pixels is byte `k` of pixel `x`, for `j == 4 * x + k`. */
  lemma {:induction false} PixelOfByte(j: nat) returns (x: nat, k: nat)
    ensures k < 4 && j == 4 * x + k
  {
    x, k := j / 4, j % 4;
  }

  /** Converting an encoded run of `n` whole pixels, from pixel `p` on, gives back their RGBA bytes. */
  lemma {:induction false} RowRgbaEncoded(rgba: seq<byte>, p: nat, n: nat)
    requires |rgba| % 4 == 0 && 4 * p + 4 * n <= |rgba|
    ensures forall j | 0 <= j < 4 * n :: RowRgba(EncodeArgb(rgba), 4 * p, n, Argb8888)[j] == rgba[4 * p + j]
  {
    forall j | 0 <= j < 4 * n
      ensures RowRgba(EncodeArgb(rgba), 4 * p, n, Argb8888)[j] == rgba[4 * p + j]
    {
      var x, k := PixelOfByte(j);
      RowRgbaByte(EncodeArgb(rgba), 4 * p, n, Argb8888, x, k);
      EncodedPixel(rgba, 4 * p + 4 * x, p + x, k);
    }
  }


  /** Byte `j` of destination row `y` of an encoded unpadded image is byte `j` of row `y` of the image. */
  lemma {:induction false} DestRowsEncoded(rgba: seq<byte>, width: nat, height: nat)
    requires |rgba| == Offset(height, width * 4)
    ensures |rgba| % 4 == 0
    ensures RowsFit(|EncodeArgb(rgba)|, width, height, width * 4)
    ensures forall y | 0 <= y < height :: Offset(y, width * 4) + width * 4 <= |rgba|
    ensures forall y, j | 0 <= y < height && 0 <= j < width * 4 ::
      DestRow(EncodeArgb(rgba), width, height, width * 4, Argb8888, false, y)[j] == rgba[Offset(y, width * 4) + j]
  {
    OffsetPixels(height, width);
    if height > 0 {
      OffsetNext(height - 1, width * 4);
    }
    forall y | 0 <= y < height
      ensures Offset(y, width * 4) + width * 4 <= |rgba|
    {
      RowEnd(y, height, width * 4);
    }
    forall y, j | 0 <= y < height && 0 <= j < width * 4
      ensures DestRow(EncodeArgb(rgba), width, height, width * 4, Argb8888, false, y)[j] == rgba[Offset(y, width * 4) + j]
    {
      OffsetPixels(y, width);
      RowRgbaEncoded(rgba, Offset(y, width), width);
    }
  }

  /** Position `i` below `Offset(n, len)` falls in row `y` for some `y < n`. */
  lemma {:induction false} RowOf(i: nat, n: nat, len: nat) returns (y: nat)
    requires i < Offset(n, len)
    ensures y < n && Offset(y, len) <= i < Offset(y, len) + len
  {
    if i < Offset(n - 1, len) {
      y := RowOf(i, n - 1, len);
    } else {
      y := n - 1;
    }
  }

  /** Rows that agree with the consecutive `len`-long runs of `img` concatenate back to `img`. */
  lemma {:induction false} ConcatRuns(rows: seq<seq<byte>>, img: seq<byte>, len: nat)
    requires forall y | 0 <= y < |rows| :: |rows[y]| == len
    requires |img| == Offset(|rows|, len)
    requires forall y | 0 <= y < |rows| :: Offset(y, len) + len <= |img|
    requires forall y, j | 0 <= y < |rows| && 0 <= j < len :: rows[y][j] == img[Offset(y, len) + j]
    ensures Concat(rows) == img
  {
    ConcatLength(rows, len);
    forall i | 0 <= i < |img|
      ensures Concat(rows)[i] == img[i]
    {
      var y := RowOf(i, |rows|, len);
      ConcatIndex(rows, len, y, i - Offset(y, len));
    }
  }

  /** A buffer whose every destination row is the matching run of `rgba` converts to `rgba`. */
  lemma {:induction false} ConvertedRuns(data: seq<byte>, rgba: seq<byte>, width: nat, height: nat, format: ShmFormat)
    requires |data| == |rgba| == Offset(height, width * 4)
    requires RowsFit(|data|, width, height, width * 4)
    requires forall y | 0 <= y < height :: Offset(y, width * 4) + width * 4 <= |rgba|
    requires forall y, j | 0 <= y < height && 0 <= j < width * 4 ::
      DestRow(data, width, height, width * 4, format, false, y)[j] == rgba[Offset(y, width * 4) + j]
    ensures Converted(data, width, height, width * 4, format, false) == rgba
  {
    var rows := DestRows(data, width, height, width * 4, format, false, height);
    DestRowsIndex(data, width, height, width * 4, format, false, height);
    ConcatRuns(rows, rgba, width * 4);
  }

  /**
   * Round trip: an RGBA image written out as unpadded Argb8888 rows and
   * converted without the y-invert flag is the image itself.
   */
  lemma {:induction false} ConvertEncodedArgb(rgba: seq<byte>, width: nat, height: nat)
    requires |rgba| == width * height * 4
    ensures RowsFit(|rgba|, width, height, width * 4)
    ensures Converted(EncodeArgb(rgba), width, height, width * 4, Argb8888, false) == rgba
  {
    assert |rgba| == Offset(height, width * 4) by {
      ImageSize(width, height);
    }
    DestRowsEncoded(rgba, width, height);
    ConvertedRuns(EncodeArgb(rgba), rgba, width, height, Argb8888);
  }
}
