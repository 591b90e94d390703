/**
 * The pixel converter of the capture engine (`convert_to_rgba`): a strided
 * buffer in one of the packed 32-bit `wl_shm` formats becomes a tightly packed,
 * top-to-bottom RGBA byte sequence.
 *
 * The source reads each pixel with `u32::from_ne_bytes`; the model fixes a
 * little-endian host, so the word of bytes b0 b1 b2 b3 is
 * `b0 | b1 << 8 | b2 << 16 | b3 << 24`.
 */
module PixelConvert {
  import opened Common

  /** `wl_shm.format`: the two packed formats the engine converts, and any other code. */
  datatype ShmFormat = Argb8888 | Xrgb8888 | OtherFormat(code: u32)

  /** The formats `BufferDone` accepts for a capture: Argb8888 and Xrgb8888. */
  predicate Supported(format: ShmFormat) {
    format.Argb8888? || format.Xrgb8888?
  }

  /** The 32-bit word `u32::from_ne_bytes([b0, b1, b2, b3])` on a little-endian host. */
  function Word(b0: byte, b1: byte, b2: byte, b3: byte): u32 {
    b0 as int + 0x100 * (b1 as int + 0x100 * (b2 as int + 0x100 * b3 as int))
  }

  /** `px >> shift` on a `u32` for a whole number of bytes: `shift / 8` divisions by 256. */
  function Shr(px: nat, shift: nat): nat
    requires shift % 8 == 0
  {
    if shift == 0 then px else Shr(px / 0x100, shift - 8)
  }

  /** `((px >> shift) & 0xff) as u8`: masking with `0xff` keeps the remainder modulo 256. */
  function Channel(px: u32, shift: nat): byte
    requires shift % 8 == 0
  {
    (Shr(px, shift) % 0x100) as byte
  }

  /**
   * The R, G, B, A bytes the converter writes for the pixel stored as the bytes
   * b0 b1 b2 b3: the word's bits 16..23, 8..15, 0..7 and 24..31 for Argb8888,
   * the same with an opaque alpha for Xrgb8888, and opaque black otherwise.
   */
  function PixelBytes(format: ShmFormat, b0: byte, b1: byte, b2: byte, b3: byte): seq<byte> {
    match format
    case Argb8888 => [b2, b1, b0, b3]
    case Xrgb8888 => [b2, b1, b0, 0xff]
    case OtherFormat(_) => [0, 0, 0, 0xff]
  }

  /** The RGBA bytes of the pixel stored at byte offset `i` of `data`. */
  function PixelAt(data: seq<byte>, i: nat, format: ShmFormat): seq<byte>
    requires i + 4 <= |data|
  {
    PixelBytes(format, data[i], data[i + 1], data[i + 2], data[i + 3])
  }

  /** The source row that destination row `y` is copied from. */
  function SourceRow(height: nat, y: nat, yInvert: bool): (row: nat)
    requires y < height
    ensures row < height
    ensures yInvert ==> row + y == height - 1
    ensures !yInvert ==> row == y
  {
    if yInvert then height - 1 - y else y
  }

  /** The byte offset of row `row` in a buffer whose rows are `rowBytes` apart. */
  function Offset(row: nat, rowBytes: nat): nat {
    if row == 0 then 0 else Offset(row - 1, rowBytes) + rowBytes
  }

  /** `Offset` is the product `row * rowBytes`; it is defined by repeated addition so that the proofs stay linear. */
  lemma {:induction false} OffsetProduct(row: nat, rowBytes: nat)
    ensures Offset(row, rowBytes) == row * rowBytes
  {
    if row > 0 {
      OffsetProduct(row - 1, rowBytes);
    }
  }

  /** Every source row the converter slices lies inside a buffer of `len` bytes. */
  predicate RowsFit(len: nat, width: nat, height: nat, stride: nat) {
    height == 0 || Offset(height - 1, stride) + width * 4 <= len
  }

  /**
   * The `u32` products the converter forms do not overflow: `width * height * 4`
   * (which is `Offset(height, width * 4)`), `width * 4` and every `src_y * stride`.
   */
  predicate NoOverflow(width: nat, height: nat, stride: nat) {
    && Offset(height, width * 4) < U32_LIMIT
    && width * 4 < U32_LIMIT
    && (height == 0 || Offset(height - 1, stride) < U32_LIMIT)
  }

  /** What `convert_to_rgba` needs of its arguments to run without a panic. */
  predicate ConvertPre(len: nat, width: nat, height: nat, stride: nat) {
    RowsFit(len, width, height, stride) && NoOverflow(width, height, stride)
  }

  // Arithmetic and sequence facts, stated once so that the proofs below stay linear.

  lemma {:induction false} OffsetMono(a: nat, b: nat, rowBytes: nat)
    requires a <= b
    ensures Offset(a, rowBytes) <= Offset(b, rowBytes)
  {
    if a < b {
      OffsetMono(a, b - 1, rowBytes);
    }
  }

  lemma {:induction false} OffsetNext(row: nat, rowBytes: nat)
    ensures Offset(row + 1, rowBytes) == Offset(row, rowBytes) + rowBytes
  {
  }

  /** A row before row `n` ends at or before the offset of row `n`. */
  lemma {:induction false} RowEnd(y: nat, n: nat, rowBytes: nat)
    requires y < n
    ensures Offset(y, rowBytes) + rowBytes <= Offset(n, rowBytes)
  {
    OffsetNext(y, rowBytes);
    OffsetMono(y + 1, n, rowBytes);
  }

  lemma {:induction false} ImageSize(width: nat, height: nat)
    ensures Offset(height, width * 4) == width * height * 4
  {
    OffsetProduct(height, width * 4);
  }

  /** Row `row` of a buffer whose rows fit lies inside the buffer. */
  lemma {:induction false} RowInside(len: nat, width: nat, height: nat, stride: nat, row: nat)
    requires RowsFit(len, width, height, stride) && row < height
    ensures Offset(row, stride) + width * 4 <= len
  {
    OffsetMono(row, height - 1, stride);
  }

  /** The RGBA bytes of the first `n` pixels of the source row that starts at byte `start`. */
  function RowRgba(data: seq<byte>, start: nat, n: nat, format: ShmFormat): (rgba: seq<byte>)
    requires start + 4 * n <= |data|
    ensures |rgba| == 4 * n
  {
    if n == 0 then [] else RowRgba(data, start, n - 1, format) + PixelAt(data, start + 4 * (n - 1), format)
  }

  /** The concatenation of `rows`, first to last. */
  function Concat<T>(rows: seq<seq<T>>): seq<T> {
    if |rows| == 0 then [] else Concat(rows[..|rows| - 1]) + rows[|rows| - 1]
  }

  /** Rows that are all `len` long concatenate to `Offset(|rows|, len)` elements. */
  lemma {:induction false} ConcatLength<T>(rows: seq<seq<T>>, len: nat)
    requires forall y | 0 <= y < |rows| :: |rows[y]| == len
    ensures |Concat(rows)| == Offset(|rows|, len)
  {
    if |rows| > 0 {
      var init := rows[..|rows| - 1];
      assert forall y | 0 <= y < |init| :: init[y] == rows[y];
      ConcatLength(init, len);
    }
  }

  /** Element `j` of row `y` of rows that are all `len` long sits at `Offset(y, len) + j` of their concatenation. */
  lemma {:induction false} ConcatIndex<T>(rows: seq<seq<T>>, len: nat, y: nat, j: nat)
    requires forall i | 0 <= i < |rows| :: |rows[i]| == len
    requires y < |rows| && j < len
    ensures Offset(y, len) + j < |Concat(rows)|
    ensures Concat(rows)[Offset(y, len) + j] == rows[y][j]
  {
    var init := rows[..|rows| - 1];
    assert forall i | 0 <= i < |init| :: init[i] == rows[i];
    ConcatLength(init, len);
    if y < |rows| - 1 {
      ConcatIndex(init, len, y, j);
      RowEnd(y, |init|, len);
    }
  }

  /** Row `y` of rows that are all `len` long occupies `Offset(y, len)` onwards of their concatenation. */
  lemma {:induction false} ConcatRow<T>(rows: seq<seq<T>>, len: nat, y: nat)
    requires forall i | 0 <= i < |rows| :: |rows[i]| == len
    requires y < |rows|
    ensures Offset(y, len) + len <= |Concat(rows)|
    ensures forall i | Offset(y, len) <= i < Offset(y, len) + len :: Concat(rows)[i] == rows[y][i - Offset(y, len)]
  {
    ConcatLength(rows, len);
    RowEnd(y, |rows|, len);
    forall i | Offset(y, len) <= i < Offset(y, len) + len
      ensures Concat(rows)[i] == rows[y][i - Offset(y, len)]
    {
      ConcatIndex(rows, len, y, i - Offset(y, len));
    }
  }


  /** Destination row `y`: the `width` pixels of source row `SourceRow(height, y, yInvert)`, converted. */
  function DestRow(data: seq<byte>, width: nat, height: nat, stride: nat, format: ShmFormat, yInvert: bool, y: nat): (row: seq<byte>)
    requires RowsFit(|data|, width, height, stride) && y < height
    ensures |row| == width * 4
  {
    var src := SourceRow(height, y, yInvert);
    RowInside(|data|, width, height, stride, src);
    RowRgba(data, Offset(src, stride), width, format)
  }

  /** The first `n` destination rows, top to bottom. */
  function DestRows(data: seq<byte>, width: nat, height: nat, stride: nat, format: ShmFormat, yInvert: bool, n: nat): (rows: seq<seq<byte>>)
    requires RowsFit(|data|, width, height, stride) && n <= height
    ensures |rows| == n
    ensures forall y | 0 <= y < n :: |rows[y]| == width * 4
  {
    if n == 0 then [] else DestRows(data, width, height, stride, format, yInvert, n - 1) + [DestRow(data, width, height, stride, format, yInvert, n - 1)]
  }

  /** Row `y` of the first `n` destination rows is `DestRow(y)`. */
  lemma {:induction false} DestRowsIndex(data: seq<byte>, width: nat, height: nat, stride: nat, format: ShmFormat, yInvert: bool, n: nat)
    requires RowsFit(|data|, width, height, stride) && n <= height
    ensures forall y | 0 <= y < n :: DestRows(data, width, height, stride, format, yInvert, n)[y] == DestRow(data, width, height, stride, format, yInvert, y)
  {
    if n > 0 {
      DestRowsIndex(data, width, height, stride, format, yInvert, n - 1);
      var init := DestRows(data, width, height, stride, format, yInvert, n - 1);
      assert DestRows(data, width, height, stride, format, yInvert, n) == init + [DestRow(data, width, height, stride, format, yInvert, n - 1)];
    }
  }

  /** The image `convert_to_rgba` produces: the destination rows, concatenated. */
  function Converted(data: seq<byte>, width: nat, height: nat, stride: nat, format: ShmFormat, yInvert: bool): (rgba: seq<byte>)
    requires RowsFit(|data|, width, height, stride)
    ensures |rgba| == Offset(height, width * 4)
  {
    var rows := DestRows(data, width, height, stride, format, yInvert, height);
    DestRowsIndex(data, width, height, stride, format, yInvert, height);
    ConcatLength(rows, width * 4);
    Concat(rows)
  }

  /** Byte `k` of pixel `x` of a converted row is channel `k` of the word at byte `start + 4 * x`. */
  lemma {:induction false} RowRgbaByte(data: seq<byte>, start: nat, n: nat, format: ShmFormat, x: nat, k: nat)
    requires start + 4 * n <= |data| && x < n && k < 4
    ensures RowRgba(data, start, n, format)[4 * x + k] == PixelAt(data, start + 4 * x, format)[k]
  {
    if x < n - 1 {
      RowRgbaByte(data, start, n - 1, format, x, k);
    }
  }

  /** Destination row `y` of the image occupies bytes `Offset(y, width * 4)` onwards. */
  lemma {:induction false} ConvertedRow(data: seq<byte>, width: nat, height: nat, stride: nat, format: ShmFormat, yInvert: bool, y: nat)
    requires RowsFit(|data|, width, height, stride) && y < height
    ensures Offset(y, width * 4) + width * 4 <= Offset(height, width * 4)
    ensures forall i | Offset(y, width * 4) <= i < Offset(y, width * 4) + width * 4 ::
      Converted(data, width, height, stride, format, yInvert)[i]
      == DestRow(data, width, height, stride, format, yInvert, y)[i - Offset(y, width * 4)]
  {
    var rows := DestRows(data, width, height, stride, format, yInvert, height);
    var row := DestRow(data, width, height, stride, format, yInvert, y);
    assert rows[y] == row by {
      DestRowsIndex(data, width, height, stride, format, yInvert, height);
    }
    ConcatRow(rows, width * 4, y);
    RowEnd(y, height, width * 4);
    forall i | Offset(y, width * 4) <= i < Offset(y, width * 4) + width * 4
      ensures Converted(data, width, height, stride, format, yInvert)[i] == row[i - Offset(y, width * 4)]
    {
      assert Concat(rows)[i] == rows[y][i - Offset(y, width * 4)];
    }
  }

  /** Row `y` of the image is the conversion of the `width` pixels starting at `srcStart`. */
  lemma {:induction false} ConvertedRowFrom(data: seq<byte>, width: nat, height: nat, stride: nat, format: ShmFormat, yInvert: bool, y: nat, srcStart: nat)
    requires RowsFit(|data|, width, height, stride) && y < height
    requires srcStart == Offset(SourceRow(height, y, yInvert), stride)
    ensures Offset(y, width * 4) + width * 4 <= Offset(height, width * 4)
    ensures srcStart + width * 4 <= |data|
    ensures forall i | Offset(y, width * 4) <= i < Offset(y, width * 4) + width * 4 ::
      Converted(data, width, height, stride, format, yInvert)[i]
      == RowRgba(data, srcStart, width, format)[i - Offset(y, width * 4)]
  {
    ConvertedRow(data, width, height, stride, format, yInvert, y);
    RowInside(|data|, width, height, stride, SourceRow(height, y, yInvert));
    assert DestRow(data, width, height, stride, format, yInvert, y) == RowRgba(data, srcStart, width, format);
  }

  /**
   * Each output pixel `(x, y)` holds, in R, G, B, A order, the channels of the
   * word at byte `src_y * stride + 4 * x` of the buffer, where `src_y` is
   * `height - 1 - y` when the frame is y-inverted and `y` otherwise.
   */
  lemma {:induction false} ConvertedByte(data: seq<byte>, width: nat, height: nat, stride: nat, format: ShmFormat, yInvert: bool, x: nat, y: nat, k: nat)
    requires RowsFit(|data|, width, height, stride) && x < width && y < height && k < 4
    ensures Offset(SourceRow(height, y, yInvert), stride) + 4 * x + 4 <= |data|
    ensures Offset(y, width * 4) + 4 * x + k < Offset(height, width * 4)
    ensures Converted(data, width, height, stride, format, yInvert)[Offset(y, width * 4) + 4 * x + k]
         == PixelAt(data, Offset(SourceRow(height, y, yInvert), stride) + 4 * x, format)[k]
  {
    var dst := Offset(y, width * 4);
    var src := Offset(SourceRow(height, y, yInvert), stride);
    var i := 4 * x + k;
    assert i < width * 4;
    ConvertedRow(data, width, height, stride, format, yInvert, y);
    RowInside(|data|, width, height, stride, SourceRow(height, y, yInvert));
    assert DestRow(data, width, height, stride, format, yInvert, y) == RowRgba(data, src, width, format);
    RowRgbaByte(data, src, width, format, x, k);
    assert dst <= dst + i < dst + width * 4;
    assert Converted(data, width, height, stride, format, yInvert)[dst + i] == RowRgba(data, src, width, format)[i];
  }

  /** The channels `convert_to_rgba` extracts from the word `u32::from_ne_bytes([b0, b1, b2, b3])` are the bytes themselves. */
  lemma {:induction false} WordChannels(b0: byte, b1: byte, b2: byte, b3: byte)
    ensures Channel(Word(b0, b1, b2, b3), 0) == b0
    ensures Channel(Word(b0, b1, b2, b3), 8) == b1
    ensures Channel(Word(b0, b1, b2, b3), 16) == b2
    ensures Channel(Word(b0, b1, b2, b3), 24) == b3
  {
    var w := Word(b0, b1, b2, b3);
    assert w / 0x100 == b1 as int + 0x100 * (b2 as int + 0x100 * b3 as int);
    assert w / 0x100 / 0x100 == b2 as int + 0x100 * b3 as int;
    assert w / 0x100 / 0x100 / 0x100 == b3 as int;
    assert Shr(w, 8) == w / 0x100;
    assert Shr(w, 16) == Shr(w / 0x100, 8) == w / 0x100 / 0x100;
    assert Shr(w, 24) == Shr(w / 0x100, 16) == Shr(w / 0x100 / 0x100, 8) == w / 0x100 / 0x100 / 0x100;
    assert (b1 as int + 0x100 * (b2 as int + 0x100 * b3 as int)) % 0x100 == b1 as int;
    assert (b2 as int + 0x100 * b3 as int) % 0x100 == b2 as int;
  }

  /**
   * One iteration of the inner loop of `convert_to_rgba`: the source word read
   * from four bytes and its (R, G, B, A) channels for `format`.
   */
  method DecodePixel(format: ShmFormat, b0: byte, b1: byte, b2: byte, b3: byte) returns (r: byte, g: byte, b: byte, a: byte)
    ensures [r, g, b, a] == PixelBytes(format, b0, b1, b2, b3)
  {
    var px := Word(b0, b1, b2, b3);
    WordChannels(b0, b1, b2, b3);
    match format {
      case Argb8888 =>
        a, r, g, b := Channel(px, 24), Channel(px, 16), Channel(px, 8), Channel(px, 0);
      case Xrgb8888 =>
        a, r, g, b := 0xff, Channel(px, 16), Channel(px, 8), Channel(px, 0);
      case OtherFormat(_) =>
        a, r, g, b := 0xff, 0, 0, 0;
    }
  }

  /** The four bytes `r`, `g`, `b`, `a` of pixel `x` of a converted row. */
  lemma {:induction false} RowRgbaPixel(data: seq<byte>, start: nat, n: nat, format: ShmFormat, x: nat, r: byte, g: byte, b: byte, a: byte)
    requires start + 4 * n <= |data| && x < n
    requires [r, g, b, a] == PixelAt(data, start + 4 * x, format)
    ensures RowRgba(data, start, n, format)[4 * x] == r
    ensures RowRgba(data, start, n, format)[4 * x + 1] == g
    ensures RowRgba(data, start, n, format)[4 * x + 2] == b
    ensures RowRgba(data, start, n, format)[4 * x + 3] == a
  {
    RowRgbaByte(data, start, n, format, x, 0);
    RowRgbaByte(data, start, n, format, x, 1);
    RowRgbaByte(data, start, n, format, x, 2);
    RowRgbaByte(data, start, n, format, x, 3);
  }

  /** The four stores `dst_row[i] = r; … dst_row[i + 3] = a` of one pixel. */
  method StorePixel(out: array<byte>, at: nat, r: byte, g: byte, b: byte, a: byte)
    requires at + 4 <= out.Length
    modifies out
    ensures out[at] == r && out[at + 1] == g && out[at + 2] == b && out[at + 3] == a
    ensures forall j | 0 <= j < out.Length && !(at <= j < at + 4) :: out[j] == old(out[j])
  {
    out[at] := r;
    out[at + 1] := g;
    out[at + 2] := b;
    out[at + 3] := a;
  }

  /**
   * Stores the bytes `r, g, b, a` of `row` at `row_index` `i` of the row that
   * starts at `dstStart`, extending the prefix of the row already written.
   */
  method StoreRowPixel(out: array<byte>, dstStart: nat, i: nat, r: byte, g: byte, b: byte, a: byte, ghost row: seq<byte>)
    requires dstStart + i + 4 <= out.Length && i + 4 <= |row|
    requires row[i] == r && row[i + 1] == g && row[i + 2] == b && row[i + 3] == a
    requires forall j | dstStart <= j < dstStart + i :: out[j] == row[j - dstStart]
    modifies out
    ensures forall j | dstStart <= j < dstStart + i + 4 :: out[j] == row[j - dstStart]
    ensures forall j | 0 <= j < out.Length && !(dstStart + i <= j < dstStart + i + 4) :: out[j] == old(out[j])
  {
    StorePixel(out, dstStart + i, r, g, b, a);
    forall j | dstStart <= j < dstStart + i + 4
      ensures out[j] == row[j - dstStart]
    {
      if j < dstStart + i {
        assert out[j] == old(out[j]);
      }
    }
  }

  /**
   * The inner `for x in 0..width` loop of `convert_to_rgba`: converts the
   * `width` pixels of `srcRow`, the slice `data[srcStart .. srcStart + width * 4]`,
   * into the `width * 4` bytes of `out` that start at `dstStart` (the slice
   * `dst_row`), and leaves every other byte of `out` alone.
   */
  method ConvertRow(out: array<byte>, dstStart: nat, srcRow: seq<byte>, width: nat, format: ShmFormat, ghost data: seq<byte>, ghost srcStart: nat)
    requires srcStart + width * 4 <= |data| && srcRow == data[srcStart .. srcStart + width * 4]
    requires dstStart + width * 4 <= out.Length
    modifies out
    ensures forall j | dstStart <= j < dstStart + width * 4 :: out[j] == RowRgba(data, srcStart, width, format)[j - dstStart]
    ensures forall j | 0 <= j < out.Length && !(dstStart <= j < dstStart + width * 4) :: out[j] == old(out[j])
  {
    ghost var row := RowRgba(data, srcStart, width, format);
    var x := 0;
    while x < width
      invariant 0 <= x <= width
      invariant forall j | dstStart <= j < dstStart + 4 * x :: out[j] == row[j - dstStart]
      invariant forall j | 0 <= j < out.Length && !(dstStart <= j < dstStart + 4 * x) :: out[j] == old(out[j])
    {
      var i := 4 * x;
      var r, g, b, a := DecodePixel(format, srcRow[i], srcRow[i + 1], srcRow[i + 2], srcRow[i + 3]);
      assert row[i] == r && row[i + 1] == g && row[i + 2] == b && row[i + 3] == a by {
        assert srcRow[i] == data[srcStart + i] && srcRow[i + 1] == data[srcStart + i + 1];
        assert srcRow[i + 2] == data[srcStart + i + 2] && srcRow[i + 3] == data[srcStart + i + 3];
        RowRgbaPixel(data, srcStart, width, format, x, r, g, b, a);
      }
      StoreRowPixel(out, dstStart, i, r, g, b, a, row);
      x := x + 1;
    }
  }

  /** The `u32` product `row * rowBytes`: the byte offset of row `row`. */
  method RowOffset(row: nat, rowBytes: nat) returns (offset: nat)
    ensures offset == Offset(row, rowBytes)
  {
    offset := row * rowBytes;
    OffsetProduct(row, rowBytes);
  }

  /**
   * One pass of the row loop of `convert_to_rgba`: converts source row
   * `src_y` into destination row `y` of `out` and leaves the other bytes alone.
   */
  method ConvertImageRow(out: array<byte>, data: seq<byte>, width: u32, height: u32, stride: u32, format: ShmFormat, yInvert: bool, y: nat)
    requires ConvertPre(|data|, width, height, stride) && y < height
    requires out.Length == Offset(height, width * 4)
    modifies out
    ensures Offset(y, width * 4) + width * 4 <= out.Length
    ensures forall j | Offset(y, width * 4) <= j < Offset(y, width * 4) + width * 4 ::
      out[j] == Converted(data, width, height, stride, format, yInvert)[j]
    ensures forall j | 0 <= j < out.Length && !(Offset(y, width * 4) <= j < Offset(y, width * 4) + width * 4) :: out[j] == old(out[j])
  {
    var rowBytes := width * 4;
    var srcY := if yInvert then height - 1 - y else y;
    var srcStart := RowOffset(srcY, stride);
    ConvertedRowFrom(data, width, height, stride, format, yInvert, y, srcStart);
    var srcRow := data[srcStart .. srcStart + rowBytes];
    var dstStart := RowOffset(y, rowBytes);
    ConvertRow(out, dstStart, srcRow, width, format, data, srcStart);
    ghost var row := RowRgba(data, srcStart, width, format);
    forall j | dstStart <= j < dstStart + rowBytes
      ensures out[j] == Converted(data, width, height, stride, format, yInvert)[j]
    {
      assert out[j] == row[j - dstStart];
    }
  }

  /**
   * `convert_to_rgba`: fills a zeroed array of `width * height * 4` bytes row
   * by row, reading each source row from `src_y * stride` and ignoring the
   * padding after its `width * 4` bytes.
   */
  method ConvertToRgba(data: seq<byte>, width: u32, height: u32, stride: u32, format: ShmFormat, yInvert: bool)
    returns (rgba: seq<byte>)
    requires ConvertPre(|data|, width, height, stride)
    ensures rgba == Converted(data, width, height, stride, format, yInvert)
  {
    ghost var image := Converted(data, width, height, stride, format, yInvert);
    var rowBytes := width * 4;
    var size := RowOffset(height, rowBytes);
    var out := new byte[size](_ => 0);
    var y := 0;
    while y < height
      invariant 0 <= y <= height
      invariant out.Length == |image|
      invariant Offset(y, rowBytes) <= out.Length
      invariant forall j | 0 <= j < Offset(y, rowBytes) :: out[j] == image[j]
    {
      ConvertImageRow(out, data, width, height, stride, format, yInvert, y);
      assert Offset(y + 1, rowBytes) == Offset(y, rowBytes) + rowBytes;
      y := y + 1;
    }
    assert out[..] == image;
    rgba := out[..];
  }
}
