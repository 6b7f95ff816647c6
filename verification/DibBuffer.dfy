/** DIB sections: guest bytes on one side, ARGB pixels on the other, and the sync and flush
that every drawing call performs around its drawing. */
module DibBuffer {
  import opened Arith
  import opened Common
  import opened Bits
  import opened Color
  import opened Dib
  import opened DibLayout
  import opened DibMasks
  import opened Region
  import opened Raster

  const U32_MAX := 0xffff_ffff

  function DivCeil(n: nat, d: nat): nat
    requires d > 0
  {
    (n + d - 1) / d
  }

  function SaturatingMul(a: nat, b: nat): nat {
    if a * b > U32_MAX then U32_MAX else a * b
  }

  function AlignedStride(width: nat, bitCount: nat): nat {
    DivCeil(SaturatingMul(width, Max(bitCount, 1)), 32) * 4
  }

  function EffectiveStride(width: nat, height: nat, sizeImage: nat, bitCount: nat): nat {
    if sizeImage != 0 && height != 0 && sizeImage / height >= DivCeil(SaturatingMul(width, Max(bitCount, 1)), 8)
    then sizeImage / height
    else AlignedStride(width, bitCount)
  }

  function RowBytes(width: nat, bitCount: nat): nat {
    DivCeil(width * bitCount, 8)
  }

  /** Whatever size the header claims, a scan line holds its row. */
  lemma StrideHoldsRow(width: nat, height: nat, sizeImage: nat, bitCount: nat)
    requires width * bitCount <= U32_MAX
    ensures EffectiveStride(width, height, sizeImage, bitCount) >= RowBytes(width, bitCount)
    ensures AlignedStride(width, bitCount) >= RowBytes(width, bitCount) && AlignedStride(width, bitCount) % 4 == 0
  {
    if bitCount == 0 {
      assert width * bitCount == 0;
    }
  }

  /** A row takes the fewest whole bytes that hold its bits. */
  lemma RowBytesLeast(width: nat, bitCount: nat)
    ensures 8 * RowBytes(width, bitCount) >= width * bitCount
    ensures 8 * RowBytes(width, bitCount) < width * bitCount + 8
  {
  }

  /** Lines are aligned to the next multiple of four bytes; a bit depth of 0 counts as 1. */
  lemma AlignedStrideLeast(width: nat, bitCount: nat)
    requires width * bitCount <= U32_MAX && (bitCount == 0 ==> width <= U32_MAX)
    ensures AlignedStride(width, bitCount) % 4 == 0
    ensures bitCount > 0 ==>
              RowBytes(width, bitCount) <= AlignedStride(width, bitCount) < RowBytes(width, bitCount) + 4
    ensures bitCount == 0 ==> AlignedStride(width, bitCount) == AlignedStride(width, 1)
  {
    var bits := width * bitCount;
    assert bitCount > 0 ==> SaturatingMul(width, Max(bitCount, 1)) == bits;
  }

  /** The size in the header decides the stride exactly when its lines hold a row. */
  lemma EffectiveStrideRule(width: nat, height: nat, sizeImage: nat, bitCount: nat)
    requires width * bitCount <= 0xffff_ffff && bitCount > 0
    ensures var trusted := sizeImage > 0 && height > 0 && sizeImage / height >= RowBytes(width, bitCount);
      EffectiveStride(width, height, sizeImage, bitCount) ==
      if trusted then sizeImage / height else AlignedStride(width, bitCount)
  {
    assert SaturatingMul(width, Max(bitCount, 1)) == width * bitCount;
  }

  /** Beyond 32 bits the product of width and depth saturates. */
  lemma WideStride(width: nat, bitCount: nat)
    requires width * bitCount > 0xffff_ffff
    ensures AlignedStride(width, bitCount) == 0x2000_0000
  {
    assert bitCount > 0;
  }

  datatype Layout = Layout(width: nat, height: nat, storedStride: nat, topDown: bool, format: Format) {
    function Stride(): nat {
      if storedStride != 0 then storedStride else AlignedStride(width, format.bitCount)
    }

    /** Scan lines run upward unless the header says otherwise. */
    function ScanLine(row: nat): int {
      if topDown then row else height - 1 - row
    }

    function RowOffset(row: nat): int {
      ScanLine(row) * Stride()
    }

    predicate Valid() {
      && width >= 1 && height >= 1 && Supported(format.bitCount)
      && RowBytes(width, format.bitCount) <= Stride()
    }
  }

  /** The stride is the one stored with the bitmap, and without one the least multiple of four
      that holds a row. */
  lemma StrideRule(l: Layout)
    requires l.Valid() && l.width * l.format.bitCount <= U32_MAX
    ensures l.storedStride > 0 ==> l.Stride() == l.storedStride
    ensures l.storedStride == 0 ==>
              l.Stride() % 4 == 0
              && RowBytes(l.width, l.format.bitCount) <= l.Stride() < RowBytes(l.width, l.format.bitCount) + 4
  {
    AlignedStrideLeast(l.width, l.format.bitCount);
  }

  // ----- cells inside the byte buffer

  function CellStart(bitCount: nat, col: nat): nat {
    match bitCount
    case 1 => col / 8
    case 4 => col / 2
    case 8 => col
    case 16 => 2 * col
    case 24 => 3 * col
    case _ => 4 * col
  }

  function CellBytes(bitCount: nat): nat {
    match bitCount
    case 16 => 2
    case 24 => 3
    case 32 => 4
    case _ => 1
  }

  predicate CellFits(raw: seq<byte>, bitCount: nat, at: int, col: nat) {
    0 <= at && at + CellStart(bitCount, col) + CellBytes(bitCount) <= |raw|
  }

  /** Little-endian numbers of `n` bytes. */
  function ReadBytes(raw: seq<byte>, i: nat, n: nat): nat
    requires i + n <= |raw|
    decreases n
  {
    if n == 0 then 0 else raw[i] as int + 256 * ReadBytes(raw, i + 1, n - 1)
  }

  function StoreBytes(raw: seq<byte>, i: nat, n: nat, v: nat): (stored: seq<byte>)
    requires i + n <= |raw|
    ensures |stored| == |raw|
    ensures forall j :: 0 <= j < |raw| && !(i <= j < i + n) ==> stored[j] == raw[j]
    decreases n
  {
    if n == 0 then raw else StoreBytes(raw[i := v % 256], i + 1, n - 1, v / 256)
  }

  function Pow256(n: nat): nat {
    if n == 0 then 1 else 256 * Pow256(n - 1)
  }

  lemma {:induction false} BytesThenRead(raw: seq<byte>, i: nat, n: nat, v: nat)
    requires i + n <= |raw| && v < Pow256(n)
    ensures ReadBytes(StoreBytes(raw, i, n, v), i, n) == v
    decreases n
  {
    if n > 0 {
      BytesThenRead(raw[i := v % 256], i + 1, n - 1, v / 256);
    }
  }

  lemma {:induction false} SameBytes(a: seq<byte>, b: seq<byte>, i: nat, n: nat)
    requires i + n <= |a| && |a| == |b| && forall j :: i <= j < i + n ==> a[j] == b[j]
    ensures ReadBytes(a, i, n) == ReadBytes(b, i, n)
    decreases n
  {
    if n > 0 {
      SameBytes(a, b, i + 1, n - 1);
    }
  }

  lemma {:induction false} ReadBytesRange(raw: seq<byte>, i: nat, n: nat)
    requires i + n <= |raw|
    ensures ReadBytes(raw, i, n) < Pow256(n)
    decreases n
  {
    if n > 0 {
      ReadBytesRange(raw, i + 1, n - 1);
    }
  }

  lemma Pow256Values()
    ensures Pow256(1) == CellLimit(8) && Pow256(2) == CellLimit(16) && Pow256(3) == CellLimit(24)
              && Pow256(4) == CellLimit(32)
  {
    assert Pow256(2) == 0x1_0000;
  }

  function ReadCell(raw: seq<byte>, bitCount: nat, at: int, col: nat): nat
    requires Supported(bitCount) && CellFits(raw, bitCount, at, col)
  {
    var i := at + CellStart(bitCount, col);
    if bitCount == 1 then Bit(raw[i], 7 - col % 8)
    else if bitCount == 4 then if col % 2 == 0 then raw[i] / 16 else raw[i] % 16
    else ReadBytes(raw, i, CellBytes(bitCount))
  }

  lemma CellBelowLimit(raw: seq<byte>, bitCount: nat, at: int, col: nat)
    requires Supported(bitCount) && CellFits(raw, bitCount, at, col)
    ensures ReadCell(raw, bitCount, at, col) < CellLimit(bitCount)
  {
    Pow256Values();
    ReadBytesRange(raw, at + CellStart(bitCount, col), CellBytes(bitCount));
  }

  /** Bytes outside the buffer read as index 0, or as transparent black above 8 bits. */
  function ReadDibPixel(raw: seq<byte>, f: Format, at: int, col: nat): Argb {
    if !Supported(f.bitCount) then Argb(0, 0, 0, 0)
    else if CellFits(raw, f.bitCount, at, col) then Decode(f, ReadCell(raw, f.bitCount, at, col))
    else if f.bitCount <= 8 then Decode(f, 0)
    else Argb(0, 0, 0, 0)
  }

  function StoreBit(b: byte, k: nat, on: bool): byte
    requires k < 8
  {
    SetBitOnly(b, k, 0);
    if on then Or(b, Pow2(k)) else And(b, 255 - Pow2(k))
  }

  /** `(b & 0x0F) | (v << 4)` or `(b & 0xF0) | v`. */
  function StoreNibble(b: byte, high: bool, v: nat): byte
    requires v < 16
  {
    if high then b % 16 + v * 16 else b / 16 * 16 + v
  }

  /** Stores one cell; the packed formats keep the other bits of the byte. */
  function StoreCell(raw: seq<byte>, bitCount: nat, at: int, col: nat, v: nat): seq<byte>
    requires Supported(bitCount) && CellFits(raw, bitCount, at, col) && v < CellLimit(bitCount)
  {
    var i := at + CellStart(bitCount, col);
    if bitCount == 1 then raw[i := StoreBit(raw[i], 7 - col % 8, v != 0)]
    else if bitCount == 4 then raw[i := StoreNibble(raw[i], col % 2 == 0, v)]
    else StoreBytes(raw, i, CellBytes(bitCount), v)
  }

  lemma StoreThenRead(raw: seq<byte>, bitCount: nat, at: int, col: nat, v: nat)
    requires Supported(bitCount) && CellFits(raw, bitCount, at, col) && v < CellLimit(bitCount)
    ensures var stored := StoreCell(raw, bitCount, at, col, v);
      |stored| == |raw| && ReadCell(stored, bitCount, at, col) == v
  {
    var i := at + CellStart(bitCount, col);
    if bitCount == 1 {
      SetBitOnly(raw[i], 7 - col % 8, 7 - col % 8);
    } else if bitCount != 4 {
      Pow256Values();
      BytesThenRead(raw, i, CellBytes(bitCount), v);
    }
  }

  /** The cells share no bit: they lie side by side in one row, or in separate bytes. */
  ghost predicate CellsApart(bitCount: nat, at: int, col: nat, at': int, col': nat) {
    || (at == at' && col != col')
    || at + CellStart(bitCount, col) + CellBytes(bitCount) <= at' + CellStart(bitCount, col')
    || at' + CellStart(bitCount, col') + CellBytes(bitCount) <= at + CellStart(bitCount, col)
  }

  lemma StoreBitKeepsOthers(raw: seq<byte>, at: int, col: nat, v: nat, at': int, col': nat)
    requires CellFits(raw, 1, at, col) && v < 2 && CellFits(raw, 1, at', col') && CellsApart(1, at, col, at', col')
    ensures ReadCell(StoreCell(raw, 1, at, col, v), 1, at', col') == ReadCell(raw, 1, at', col')
  {
    if at + col / 8 == at' + col' / 8 {
      SetBitOnly(raw[at + col / 8], 7 - col % 8, 7 - col' % 8);
    }
  }

  lemma StoreNibbleKeepsOthers(raw: seq<byte>, at: int, col: nat, v: nat, at': int, col': nat)
    requires CellFits(raw, 4, at, col) && v < 16 && CellFits(raw, 4, at', col') && CellsApart(4, at, col, at', col')
    ensures ReadCell(StoreCell(raw, 4, at, col, v), 4, at', col') == ReadCell(raw, 4, at', col')
  {
  }

  lemma StoreKeepsOthers(raw: seq<byte>, bitCount: nat, at: int, col: nat, v: nat, at': int, col': nat)
    requires Supported(bitCount) && CellFits(raw, bitCount, at, col) && v < CellLimit(bitCount)
    requires CellFits(raw, bitCount, at', col') && CellsApart(bitCount, at, col, at', col')
    ensures var stored := StoreCell(raw, bitCount, at, col, v);
      |stored| == |raw| && ReadCell(stored, bitCount, at', col') == ReadCell(raw, bitCount, at', col')
  {
    if bitCount == 1 {
      StoreBitKeepsOthers(raw, at, col, v, at', col');
    } else if bitCount == 4 {
      StoreNibbleKeepsOthers(raw, at, col, v, at', col');
    } else {
      SameBytes(raw, StoreCell(raw, bitCount, at, col, v), at' + CellStart(bitCount, col'), CellBytes(bitCount));
    }
  }

  // ----- the usual formats in memory

  lemma ThreeBytes(raw: seq<byte>, i: nat)
    requires i + 3 <= |raw|
    ensures var v := ReadBytes(raw, i, 3);
      v / 0x1_0000 % 256 == raw[i + 2] && v / 0x100 % 256 == raw[i + 1] && v % 256 == raw[i]
  {
    assert ReadBytes(raw, i + 1, 2) == raw[i + 1] as int + 256 * ReadBytes(raw, i + 2, 1);
    assert ReadBytes(raw, i + 2, 1) == raw[i + 2] as int;
  }

  lemma FourBytes(raw: seq<byte>, i: nat)
    requires i + 4 <= |raw|
    ensures var v := ReadBytes(raw, i, 4);
      && v / 0x100_0000 % 256 == raw[i + 3] && v / 0x1_0000 % 256 == raw[i + 2]
      && v / 0x100 % 256 == raw[i + 1] && v % 256 == raw[i]
  {
    ThreeBytes(raw, i + 1);
    var v, rest := ReadBytes(raw, i, 4), ReadBytes(raw, i + 1, 3);
    assert v == raw[i] as int + 256 * rest;
    assert v / 256 == rest && v / 0x1_0000 == rest / 256 && v / 0x100_0000 == rest / 0x1_0000;
  }

  /** In memory a 24-bit pixel is the bytes blue, green, red. */
  lemma PixelBytes24(raw: seq<byte>, f: Format, at: nat, col: nat)
    requires f.bitCount == 24 && at + 3 * col + 3 <= |raw|
    ensures var i := at + 3 * col; ReadDibPixel(raw, f, at, col) == Argb(255, raw[i + 2], raw[i + 1], raw[i])
  {
    ThreeBytes(raw, at + 3 * col);
  }

  /** And a 32-bit one without masks is blue, green, red, alpha. */
  lemma PixelBytes32(raw: seq<byte>, f: Format, at: nat, col: nat)
    requires f.bitCount == 32 && DefaultMasks(f) && at + 4 * col + 4 <= |raw|
    ensures var i := at + 4 * col; ReadDibPixel(raw, f, at, col) == Argb(raw[i + 3], raw[i + 2], raw[i + 1], raw[i])
  {
    var i := at + 4 * col;
    FourBytes(raw, i);
    DecodeDefault32(f, ReadBytes(raw, i, 4));
  }

  lemma {:induction false} BitIsQuotient(b: nat, k: nat)
    ensures Bit(b, k) == b / Pow2(k) % 2
    decreases k
  {
    if k > 0 {
      BitIsQuotient(b / 2, k - 1);
      HalvedQuotient(b, Pow2(k - 1));
    }
  }

  /** In memory eight 1-bit pixels are one byte, the leftmost in its highest bit. */
  lemma PackedBits(raw: seq<byte>, at: nat, col: nat)
    requires at + col / 8 < |raw|
    ensures ReadCell(raw, 1, at, col) == raw[at + col / 8] / Pow2(7 - col % 8) % 2
  {
    BitIsQuotient(raw[at + col / 8], 7 - col % 8);
  }

  /** Two 4-bit pixels are one byte, the left one in its high half. */
  lemma PackedNibbles(raw: seq<byte>, at: nat, k: nat)
    requires at + k < |raw|
    ensures raw[at + k] as int == 16 * ReadCell(raw, 4, at, 2 * k) + ReadCell(raw, 4, at, 2 * k + 1)
    ensures ReadCell(raw, 4, at, 2 * k) < 16 && ReadCell(raw, 4, at, 2 * k + 1) < 16
  {
  }

  /** The number of four bytes, the first one lowest. */
  function LittleEndian(a: int, b: int, c: int, d: int): int {
    a + 0x100 * b + 0x1_0000 * c + 0x100_0000 * d
  }

  /** An 8-bit cell is its byte; wider cells are little-endian. */
  lemma WholeByteCell(raw: seq<byte>, bitCount: nat, at: nat, col: nat, i: nat)
    requires bitCount == 8 || bitCount == 16 || bitCount == 24 || bitCount == 32
    requires 8 * (i - at) == bitCount * col && i + bitCount / 8 <= |raw|
    ensures var v := ReadCell(raw, bitCount, at, col);
      && (bitCount == 8 ==> v == raw[i])
      && (bitCount == 16 ==> v == LittleEndian(raw[i], raw[i + 1], 0, 0))
      && (bitCount == 24 ==> v == LittleEndian(raw[i], raw[i + 1], raw[i + 2], 0))
      && (bitCount == 32 ==> v == LittleEndian(raw[i], raw[i + 1], raw[i + 2], raw[i + 3]))
  {
    FewBytes(raw, i);
    assert i == at + CellStart(bitCount, col);
  }

  lemma {:induction false} FewBytes(raw: seq<byte>, i: nat)
    ensures i < |raw| ==> ReadBytes(raw, i, 1) == raw[i]
    ensures i + 1 < |raw| ==> ReadBytes(raw, i, 2) == LittleEndian(raw[i], raw[i + 1], 0, 0)
    ensures i + 2 < |raw| ==> ReadBytes(raw, i, 3) == LittleEndian(raw[i], raw[i + 1], raw[i + 2], 0)
    ensures i + 3 < |raw| ==> ReadBytes(raw, i, 4) == LittleEndian(raw[i], raw[i + 1], raw[i + 2], raw[i + 3])
    decreases |raw| - i
  {
    if i < |raw| {
      assert ReadBytes(raw, i, 1) == raw[i] as int + 256 * ReadBytes(raw, i + 1, 0);
    }
    if i + 1 < |raw| {
      FewBytes(raw, i + 1);
    }
  }

  /** Past the end of the bytes a pixel reads as index 0, or as transparent black above 8 bits. */
  lemma PixelOutside(raw: seq<byte>, f: Format, at: nat, col: nat)
    ensures f.bitCount <= 8 && Supported(f.bitCount) && at >= |raw| ==>
              ReadDibPixel(raw, f, at, col) == Decode(f, 0)
    ensures f.bitCount == 16 && at + 2 * col + 2 > |raw| ==> ReadDibPixel(raw, f, at, col) == Argb(0, 0, 0, 0)
    ensures f.bitCount == 24 && at + 3 * col + 3 > |raw| ==> ReadDibPixel(raw, f, at, col) == Argb(0, 0, 0, 0)
    ensures f.bitCount == 32 && at + 4 * col + 4 > |raw| ==> ReadDibPixel(raw, f, at, col) == Argb(0, 0, 0, 0)
    ensures !Supported(f.bitCount) ==> ReadDibPixel(raw, f, at, col) == Argb(0, 0, 0, 0)
  {
  }

  // ----- the whole buffer

  /** Offsets of two rows of the bitmap, and the room each has. */
  lemma RowsApart(l: Layout, row: nat, row': nat, size: nat)
    requires l.Valid() && row < l.height && row' < l.height && size == l.Stride() * l.height
    ensures 0 <= l.RowOffset(row) && l.RowOffset(row) + l.Stride() <= size
    ensures row != row' ==>
              l.RowOffset(row) + l.Stride() <= l.RowOffset(row') || l.RowOffset(row') + l.Stride() <= l.RowOffset(row)
  {
    LinesApart(l.ScanLine(row), l.ScanLine(row'), l.Stride(), l.height);
  }

  lemma LinesApart(r: nat, r': nat, stride: nat, height: nat)
    requires r < height && r' < height
    ensures 0 <= r * stride && r * stride + stride <= stride * height
    ensures r != r' ==> r * stride + stride <= r' * stride || r' * stride + stride <= r * stride
  {
    MulGap(r, height, stride);
    if r < r' { MulGap(r, r', stride); }
    if r' < r { MulGap(r', r, stride); }
  }

  lemma CellInRow(width: nat, bitCount: nat, col: nat)
    requires Supported(bitCount) && col < width
    ensures CellStart(bitCount, col) + CellBytes(bitCount) <= RowBytes(width, bitCount)
  {
  }

  lemma EncodeBelowLimit(f: Format, c: Argb)
    requires Supported(f.bitCount)
    ensures Encode(f, c) < CellLimit(f.bitCount)
  {
  }

  /** Each pixel is the decoded cell of its row and column. */
  ghost predicate IsSynced(l: Layout, raw: seq<byte>, pixels: seq<Argb>) {
    && |pixels| == l.width * l.height
    && forall row: nat, col: nat | row < l.height && col < l.width ::
         pixels[Idx(l.width, l.height, col, row)] == ReadDibPixel(raw, l.format, l.RowOffset(row), col)
  }

  ghost predicate HoldsCell(l: Layout, pixels: seq<Argb>, raw: seq<byte>, row: nat, col: nat)
    requires l.Valid() && |pixels| == l.width * l.height && row < l.height && col < l.width
  {
    && CellFits(raw, l.format.bitCount, l.RowOffset(row), col)
    && ReadCell(raw, l.format.bitCount, l.RowOffset(row), col) ==
        Encode(l.format, pixels[Idx(l.width, l.height, col, row)])
  }

  /** Each cell holds the encoding of its pixel. */
  ghost predicate IsFlushed(l: Layout, pixels: seq<Argb>, raw: seq<byte>)
    requires l.Valid() && |pixels| == l.width * l.height
  {
    && |raw| == l.Stride() * l.height
    && forall row: nat, col: nat | row < l.height && col < l.width :: HoldsCell(l, pixels, raw, row, col)
  }

  lemma CellsFit(l: Layout, raw: seq<byte>, row: nat, col: nat)
    requires l.Valid() && row < l.height && col < l.width && |raw| == l.Stride() * l.height
    ensures CellFits(raw, l.format.bitCount, l.RowOffset(row), col)
  {
    RowsApart(l, row, row, |raw|);
    CellInRow(l.width, l.format.bitCount, col);
  }

  lemma LineCellsApart(bitCount: nat, stride: nat, r: nat, col: nat, r': nat, col': nat)
    requires CellStart(bitCount, col) + CellBytes(bitCount) <= stride
        && CellStart(bitCount, col') + CellBytes(bitCount) <= stride
    requires r < r'
    ensures CellsApart(bitCount, r * stride, col, r' * stride, col')
              && CellsApart(bitCount, r' * stride, col', r * stride, col)
  {
    MulGap(r, r', stride);
  }

  lemma CellInStride(l: Layout, col: nat)
    requires l.Valid() && col < l.width
    ensures CellStart(l.format.bitCount, col) + CellBytes(l.format.bitCount) <= l.Stride()
  {
    CellInRow(l.width, l.format.bitCount, col);
  }

  lemma DistinctCellsApart(l: Layout, row: nat, col: nat, row': nat, col': nat)
    requires l.Valid() && row < l.height && col < l.width && row' < l.height && col' < l.width
    requires row != row' || col != col'
    ensures CellsApart(l.format.bitCount, l.RowOffset(row), col, l.RowOffset(row'), col')
  {
    CellInStride(l, col);
    CellInStride(l, col');
    var r, r' := l.ScanLine(row), l.ScanLine(row');
    if r < r' {
      LineCellsApart(l.format.bitCount, l.Stride(), r, col, r', col');
    } else if r' < r {
      LineCellsApart(l.format.bitCount, l.Stride(), r', col', r, col);
    }
  }

  // ----- what a sync, flush and sync again do to one pixel

  /** A pixel that drawing left as it was read reads back the same after the flush exactly
      when its cell round-trips, whatever was drawn on every other pixel. */
  lemma UntouchedPixelKeepsIff(l: Layout, raw: seq<byte>, drawn: seq<Argb>, flushed: seq<byte>, row: nat, col: nat)
    requires l.Valid() && |raw| == l.Stride() * l.height && |drawn| == l.width * l.height
    requires IsFlushed(l, drawn, flushed)
    requires row < l.height && col < l.width
    requires drawn[Idx(l.width, l.height, col, row)] == ReadDibPixel(raw, l.format, l.RowOffset(row), col)
    ensures CellFits(raw, l.format.bitCount, l.RowOffset(row), col)
    ensures ReadDibPixel(flushed, l.format, l.RowOffset(row), col) ==
              ReadDibPixel(raw, l.format, l.RowOffset(row), col) <==>
            RoundTrips(l.format, ReadCell(raw, l.format.bitCount, l.RowOffset(row), col))
  {
    CellsFit(l, raw, row, col);
    assert HoldsCell(l, drawn, flushed, row, col);
  }

  /** The formats and cell values the codec is exact for. */
  ghost predicate ExactCell(f: Format, v: nat) {
    match f.bitCount
    case 24 => true
    case 16 => DefaultMasks(f) || CleanMasks(f.masks, CellLimit(16))
    case 32 => DefaultMasks(f) || CleanMasks(f.masks, CellLimit(32))
    case _ =>
      || v < |f.palette|
      || (f.palette == [] && (f.bitCount == 8 ==> v <= 85))
      || (exists k :: 0 <= k < |f.palette| && SameRgb(f.palette[k], Fallback(f.bitCount, v)))
  }

  lemma DefaultsNarrow(f: Format)
    requires (f.bitCount == 16 || f.bitCount == 32) && DefaultMasks(f)
    ensures NarrowMasks(EffectiveMasks(f))
  {
    DefaultMasksNarrow();
  }

  lemma DecodesMasked(f: Format, v: nat)
    requires f.bitCount == 16 || f.bitCount == 32
    ensures Decode(f, v) == DecodeMasked(EffectiveMasks(f), v)
  {
  }

  lemma EncodesMasked(f: Format, c: Argb)
    requires f.bitCount == 16 || f.bitCount == 32
    ensures Encode(f, c) == EncodeMasked(EffectiveMasks(f), c) % CellLimit(f.bitCount)
  {
  }

  lemma SmallRest(y: nat, limit: nat)
    requires y < limit
    ensures y % limit == y
  {
    QuotientUnique(y, limit, 0, y);
  }

  lemma CellSurvives(f: Format, v: nat, m: Masks, y: nat)
    requires (f.bitCount == 16 || f.bitCount == 32) && m == EffectiveMasks(f) && y < CellLimit(f.bitCount)
    requires y == EncodeMasked(m, DecodeMasked(m, v)) && DecodeMasked(m, y) == DecodeMasked(m, v)
    ensures RoundTrips(f, v)
  {
    DecodesMasked(f, v);
    DecodesMasked(f, y);
    EncodesMasked(f, Decode(f, v));
    SmallRest(y, CellLimit(f.bitCount));
  }

  lemma NarrowCellRoundTrips(f: Format, v: nat)
    requires (f.bitCount == 16 || f.bitCount == 32) && v < CellLimit(f.bitCount) && NarrowMasks(EffectiveMasks(f))
    ensures RoundTrips(f, v)
  {
    var m := EffectiveMasks(f);
    MaskedRoundTrip(m, v);
    CellSurvives(f, v, m, EncodeMasked(m, DecodeMasked(m, v)));
  }

  /** A colour is stored in 32 bits without masks as the bytes blue, green, red, alpha. */
  lemma EncodeDefault32(f: Format, c: Argb)
    requires f.bitCount == 32 && DefaultMasks(f)
    ensures Encode(f, c) == LittleEndian(c.b, c.g, c.r, c.a)
  {
    var v := LittleEndian(c.b, c.g, c.r, c.a);
    BytesOf(v, c);
    DecodeDefault32(f, v);
    DefaultsNarrow(f);
    NarrowCellRoundTrips(f, v);
    var y := Encode(f, c);
    EncodeBelowLimit(f, c);
    DecodeDefault32(f, y);
    BytesOf(y, c);
  }

  /** Four bytes make one number and only one. */
  lemma BytesOf(v: nat, c: Argb)
    requires v < 0x1_0000_0000
    ensures v / 0x100_0000 % 256 == c.a && v / 0x1_0000 % 256 == c.r && v / 0x100 % 256 == c.g && v % 256 == c.b <==>
            v == LittleEndian(c.b, c.g, c.r, c.a)
  {
    var q1 := v / 256;
    var q2 := q1 / 256;
    var q3 := q2 / 256;
    assert v / 0x1_0000 == q2 && v / 0x100_0000 == q3 && q3 < 256;
    if v == LittleEndian(c.b, c.g, c.r, c.a) {
      QuotientUnique(v, 256, LittleEndian(c.g, c.r, c.a, 0), c.b);
      QuotientUnique(q1, 256, LittleEndian(c.r, c.a, 0, 0), c.g);
      QuotientUnique(q2, 256, c.a, c.r);
    }
  }

  lemma EncodeDefault24(f: Format, c: Argb)
    requires f.bitCount == 24
    ensures Encode(f, c) == LittleEndian(c.b, c.g, c.r, 0)
  {
  }

  lemma MaskedCellRoundTrips(f: Format, v: nat)
    requires (f.bitCount == 16 || f.bitCount == 32) && v < CellLimit(f.bitCount)
    requires DefaultMasks(f) || CleanMasks(f.masks, CellLimit(f.bitCount))
    ensures RoundTrips(f, v)
  {
    if DefaultMasks(f) {
      DefaultsNarrow(f);
      NarrowCellRoundTrips(f, v);
    } else {
      var y := CleanCell(f.masks, v, f.bitCount);
      CellSurvives(f, v, f.masks, y);
    }
  }

  lemma ExactCellRoundTrips(f: Format, v: nat)
    requires Supported(f.bitCount) && v < CellLimit(f.bitCount) && ExactCell(f, v)
    ensures RoundTrips(f, v)
  {
    if f.bitCount == 24 {
      TrueColourRoundTrips(f, v);
    } else if f.bitCount == 16 || f.bitCount == 32 {
      MaskedCellRoundTrips(f, v);
    } else {
      IndexedRoundTripIff(f, v);
    }
  }

  ghost predicate ExactAt(l: Layout, raw: seq<byte>, row: nat, col: nat)
    requires Supported(l.format.bitCount)
  {
    CellFits(raw, l.format.bitCount, l.RowOffset(row), col) ==>
      ExactCell(l.format, ReadCell(raw, l.format.bitCount, l.RowOffset(row), col))
  }

  predicate RoundTripsAt(l: Layout, raw: seq<byte>, row: nat, col: nat)
    requires Supported(l.format.bitCount)
  {
    CellFits(raw, l.format.bitCount, l.RowOffset(row), col) ==>
      RoundTrips(l.format, ReadCell(raw, l.format.bitCount, l.RowOffset(row), col))
  }

  /** sync; flush; sync equals sync, pixel by pixel, exactly where the cell round-trips. */
  lemma SyncFlushSyncIff(l: Layout, raw: seq<byte>, pixels: seq<Argb>, flushed: seq<byte>, again: seq<Argb>)
    requires l.Valid() && |raw| == l.Stride() * l.height
    requires IsSynced(l, raw, pixels) && IsFlushed(l, pixels, flushed) && IsSynced(l, flushed, again)
    ensures forall row: nat, col: nat | row < l.height && col < l.width ::
              again[Idx(l.width, l.height, col, row)] == pixels[Idx(l.width, l.height, col, row)] <==>
                  RoundTripsAt(l, raw, row, col)
    ensures again == pixels <==> forall row: nat, col: nat | row < l.height && col < l.width ::
              RoundTripsAt(l, raw, row, col)
  {
    forall row: nat, col: nat | row < l.height && col < l.width
      ensures again[Idx(l.width, l.height, col, row)] == pixels[Idx(l.width, l.height, col, row)] <==>
                RoundTripsAt(l, raw, row, col)
    {
      UntouchedPixelKeepsIff(l, raw, pixels, flushed, row, col);
    }
    if forall row: nat, col: nat | row < l.height && col < l.width :: RoundTripsAt(l, raw, row, col) {
      SameEverywhere(l.width, l.height, again, pixels);
    }
  }

  lemma ExactAtRoundTrips(l: Layout, raw: seq<byte>, row: nat, col: nat)
    requires Supported(l.format.bitCount) && ExactAt(l, raw, row, col)
    ensures RoundTripsAt(l, raw, row, col)
  {
    if CellFits(raw, l.format.bitCount, l.RowOffset(row), col) {
      CellBelowLimit(raw, l.format.bitCount, l.RowOffset(row), col);
      ExactCellRoundTrips(l.format, ReadCell(raw, l.format.bitCount, l.RowOffset(row), col));
    }
  }

  /** No pixel of a bitmap drifts whose indices are inside the palette and whose masks are clean. */
  lemma SyncFlushSync(l: Layout, raw: seq<byte>, pixels: seq<Argb>, flushed: seq<byte>, again: seq<Argb>)
    requires l.Valid() && |raw| == l.Stride() * l.height
    requires IsSynced(l, raw, pixels) && IsFlushed(l, pixels, flushed) && IsSynced(l, flushed, again)
    requires forall row: nat, col: nat | row < l.height && col < l.width :: ExactAt(l, raw, row, col)
    ensures again == pixels
  {
    forall row: nat, col: nat | row < l.height && col < l.width ensures RoundTripsAt(l, raw, row, col) {
      ExactAtRoundTrips(l, raw, row, col);
    }
    SyncFlushSyncIff(l, raw, pixels, flushed, again);
  }

  // ----- the section object

  /** Low byte first. */
  method WriteBytes(raw: array<byte>, i: nat, n: nat, v: nat)
    requires i + n <= raw.Length
    modifies raw
    ensures raw[..] == StoreBytes(old(raw[..]), i, n, v)
  {
    var k, rest := 0, v;
    while k < n
      invariant 0 <= k <= n
      invariant StoreBytes(raw[..], i + k, n - k, rest) == StoreBytes(old(raw[..]), i, n, v)
    {
      raw[i + k] := rest % 256;
      k, rest := k + 1, rest / 256;
    }
  }

  /** Writes one pixel in place; outside the buffer nothing happens. */
  method WriteDibPixel(raw: array<byte>, f: Format, at: int, col: nat, color: Argb)
    requires at >= 0
    modifies raw
    ensures Supported(f.bitCount) && CellFits(old(raw[..]), f.bitCount, at, col) ==>
              Encode(f, color) < CellLimit(f.bitCount)
              && raw[..] == StoreCell(old(raw[..]), f.bitCount, at, col, Encode(f, color))
    ensures !(Supported(f.bitCount) && CellFits(old(raw[..]), f.bitCount, at, col)) ==> raw[..] == old(raw[..])
  {
    if !Supported(f.bitCount) {
      return;
    }
    EncodeBelowLimit(f, color);
    var i := at + CellStart(f.bitCount, col);
    var n := CellBytes(f.bitCount);
    if i + n - 1 >= raw.Length {
      return;
    }
    var v := Encode(f, color);
    if f.bitCount == 1 {
      raw[i] := StoreBit(raw[i], 7 - col % 8, v != 0);
    } else if f.bitCount == 4 {
      raw[i] := StoreNibble(raw[i], col % 2 == 0, v);
    } else {
      WriteBytes(raw, i, n, v);
    }
  }

  /** Every cell before `col` in `row`, in row order, holds its pixel. */
  ghost predicate FlushedUpTo(l: Layout, pixels: seq<Argb>, raw: seq<byte>, row: nat, col: nat)
    requires l.Valid() && |pixels| == l.width * l.height
  {
    forall r: nat, c: nat | r < l.height && c < l.width && (r < row || (r == row && c < col)) ::
        HoldsCell(l, pixels, raw, r, c)
  }

  lemma StoreAdvances(l: Layout, pixels: seq<Argb>, raw: seq<byte>, row: nat, col: nat)
    requires l.Valid() && |pixels| == l.width * l.height && |raw| == l.Stride() * l.height
    requires row < l.height && col < l.width && FlushedUpTo(l, pixels, raw, row, col)
    ensures CellFits(raw, l.format.bitCount, l.RowOffset(row), col)
    ensures var v := Encode(l.format, pixels[Idx(l.width, l.height, col, row)]);
      && v < CellLimit(l.format.bitCount)
      && FlushedUpTo(l, pixels, StoreCell(raw, l.format.bitCount, l.RowOffset(row), col, v), row, col + 1)
  {
    var v := Encode(l.format, pixels[Idx(l.width, l.height, col, row)]);
    EncodeBelowLimit(l.format, pixels[Idx(l.width, l.height, col, row)]);
    CellsFit(l, raw, row, col);
    StoreThenRead(raw, l.format.bitCount, l.RowOffset(row), col, v);
    var stored := StoreCell(raw, l.format.bitCount, l.RowOffset(row), col, v);
    forall r: nat, c: nat | r < l.height && c < l.width && (r < row || (r == row && c < col + 1))
      ensures HoldsCell(l, pixels, stored, r, c)
    {
      if r != row || c != col {
        assert HoldsCell(l, pixels, raw, r, c);
        DistinctCellsApart(l, row, col, r, c);
        StoreKeepsOthers(raw, l.format.bitCount, l.RowOffset(row), col, v, l.RowOffset(r), c);
      }
    }
  }

  /** Every whole cell right of the bitmap, and every byte past the row, is zero in each line. */
  ghost predicate PaddingClear(l: Layout, raw: seq<byte>) {
    && (forall r: nat, c: nat | r < l.height && IsPaddingCell(l, c) :: PaddingCellClear(l, raw, r, c))
    && (forall r: nat, k: nat | r < l.height && IsPaddingByte(l, k) :: PaddingByteClear(l, raw, r, k))
  }

  predicate IsPaddingCell(l: Layout, c: nat) {
    l.width <= c && CellStart(l.format.bitCount, c) + CellBytes(l.format.bitCount) <= l.Stride()
  }

  predicate IsPaddingByte(l: Layout, k: nat) {
    RowBytes(l.width, l.format.bitCount) <= k < l.Stride()
  }

  predicate PaddingCellClear(l: Layout, raw: seq<byte>, r: nat, c: nat) {
    CellIs(raw, l.format.bitCount, r * l.Stride(), c, 0)
  }

  predicate PaddingByteClear(l: Layout, raw: seq<byte>, r: nat, k: nat) {
    var i := r * l.Stride() + k; 0 <= i < |raw| && raw[i] == 0
  }

  predicate CellIs(raw: seq<byte>, bitCount: nat, at: int, col: nat, v: nat) {
    Supported(bitCount) && CellFits(raw, bitCount, at, col) && ReadCell(raw, bitCount, at, col) == v
  }

  lemma {:induction false} ZeroBytes(raw: seq<byte>, i: nat, n: nat)
    requires i + n <= |raw| && forall k :: 0 <= k < |raw| ==> raw[k] == 0
    ensures ReadBytes(raw, i, n) == 0
    decreases n
  {
    if n > 0 { ZeroBytes(raw, i + 1, n - 1); }
  }

  lemma ZeroPadding(l: Layout, raw: seq<byte>)
    requires l.Valid() && |raw| == l.Stride() * l.height && forall k :: 0 <= k < |raw| ==> raw[k] == 0
    ensures PaddingClear(l, raw)
  {
    forall r: nat, c: nat | r < l.height && IsPaddingCell(l, c) ensures PaddingCellClear(l, raw, r, c) {
      LinesApart(r, r, l.Stride(), l.height);
      ZeroCell(raw, l.format.bitCount, r * l.Stride(), c);
    }
    forall r: nat, k: nat | r < l.height && IsPaddingByte(l, k) ensures PaddingByteClear(l, raw, r, k) {
      LinesApart(r, r, l.Stride(), l.height);
    }
  }

  lemma ZeroCell(raw: seq<byte>, bitCount: nat, at: nat, col: nat)
    requires Supported(bitCount) && CellFits(raw, bitCount, at, col) && forall k :: 0 <= k < |raw| ==> raw[k] == 0
    ensures ReadCell(raw, bitCount, at, col) == 0
  {
    ZeroBytes(raw, at + CellStart(bitCount, col), CellBytes(bitCount));
    ZeroBits(7 - col % 8);
  }

  lemma StoreKeepsPaddingCell(l: Layout, raw: seq<byte>, line: nat, col: nat, v: nat, r: nat, c: nat)
    requires l.Valid() && line < l.height && col < l.width && r < l.height && IsPaddingCell(l, c)
    requires v < CellLimit(l.format.bitCount) && CellFits(raw, l.format.bitCount, line * l.Stride(), col)
    requires PaddingCellClear(l, raw, r, c)
    ensures PaddingCellClear(l, StoreCell(raw, l.format.bitCount, line * l.Stride(), col, v), r, c)
  {
    CellInStride(l, col);
    if r < line {
      LineCellsApart(l.format.bitCount, l.Stride(), r, c, line, col);
    } else if line < r {
      LineCellsApart(l.format.bitCount, l.Stride(), line, col, r, c);
    }
    StoreKeepsOthers(raw, l.format.bitCount, line * l.Stride(), col, v, r * l.Stride(), c);
  }

  lemma StoreKeepsPaddingByte(l: Layout, raw: seq<byte>, line: nat, col: nat, v: nat, r: nat, k: nat)
    requires l.Valid() && line < l.height && col < l.width && r < l.height && IsPaddingByte(l, k)
    requires v < CellLimit(l.format.bitCount) && CellFits(raw, l.format.bitCount, line * l.Stride(), col)
    requires PaddingByteClear(l, raw, r, k)
    ensures PaddingByteClear(l, StoreCell(raw, l.format.bitCount, line * l.Stride(), col, v), r, k)
  {
    CellInRow(l.width, l.format.bitCount, col);
    LinesApart(r, line, l.Stride(), l.height);
    StoreTouches(raw, l.format.bitCount, line * l.Stride(), col, v, r * l.Stride() + k);
  }

  /** Storing a cell of the bitmap leaves the padding as it is. */
  lemma StoreKeepsPadding(l: Layout, raw: seq<byte>, row: nat, col: nat, v: nat)
    requires l.Valid() && |raw| == l.Stride() * l.height && row < l.height && col < l.width
    requires v < CellLimit(l.format.bitCount) && PaddingClear(l, raw)
    ensures CellFits(raw, l.format.bitCount, l.RowOffset(row), col)
    ensures PaddingClear(l, StoreCell(raw, l.format.bitCount, l.RowOffset(row), col, v))
  {
    CellsFit(l, raw, row, col);
    var line := l.ScanLine(row);
    var stored := StoreCell(raw, l.format.bitCount, line * l.Stride(), col, v);
    forall r: nat, c: nat | r < l.height && IsPaddingCell(l, c) ensures PaddingCellClear(l, stored, r, c) {
      StoreKeepsPaddingCell(l, raw, line, col, v, r, c);
    }
    forall r: nat, k: nat | r < l.height && IsPaddingByte(l, k) ensures PaddingByteClear(l, stored, r, k) {
      StoreKeepsPaddingByte(l, raw, line, col, v, r, k);
    }
  }

  lemma StoreTouches(raw: seq<byte>, bitCount: nat, at: int, col: nat, v: nat, i: nat)
    requires Supported(bitCount) && CellFits(raw, bitCount, at, col) && v < CellLimit(bitCount) && i < |raw|
    requires !(at + CellStart(bitCount, col) <= i < at + CellStart(bitCount, col) + CellBytes(bitCount))
    ensures var stored := StoreCell(raw, bitCount, at, col, v); |stored| == |raw| && stored[i] == raw[i]
  {
  }

  /** The flushed cells by scan line: line 0 first when the rows run down, last when they run up. */
  lemma FlushedLines(l: Layout, pixels: seq<Argb>, raw: seq<byte>)
    requires l.Valid() && |pixels| == l.width * l.height && IsFlushed(l, pixels, raw)
    ensures forall row: nat, col: nat | row < l.height && col < l.width ::
              CellIs(raw, l.format.bitCount, (if l.topDown then row else l.height - 1 - row) * l.Stride(), col,
                     Encode(l.format, pixels[Idx(l.width, l.height, col, row)]))
  {
    forall row: nat, col: nat | row < l.height && col < l.width
      ensures CellIs(raw, l.format.bitCount, (if l.topDown then row else l.height - 1 - row) * l.Stride(), col,
                     Encode(l.format, pixels[Idx(l.width, l.height, col, row)]))
    {
      assert HoldsCell(l, pixels, raw, row, col);
    }
  }

  class DibSection {
    const layout: Layout
    const pixels: array<Argb>
    const memory: array<byte>

    ghost predicate Valid()
      reads this
    {
      && layout.Valid()
      && pixels.Length == layout.width * layout.height
      && memory.Length == layout.Stride() * layout.height
    }

    constructor (l: Layout, px: array<Argb>, bits: array<byte>)
      requires l.Valid() && px.Length == l.width * l.height && bits.Length == l.Stride() * l.height
      ensures Valid() && layout == l && pixels == px && memory == bits
    {
      layout, pixels, memory := l, px, bits;
    }

    /** `raw_dib_to_pixels` over the guest bytes, copied into the pixel buffer. */
    method SyncPixels()
      requires Valid()
      modifies pixels
      ensures IsSynced(layout, memory[..], pixels[..])
      ensures layout.topDown ==>
                forall row: nat, col: nat | row < layout.height && col < layout.width ::
                  pixels[Idx(layout.width, layout.height, col, row)] ==
                  ReadDibPixel(memory[..], layout.format, row * layout.Stride(), col)
      ensures !layout.topDown ==>
                forall row: nat, col: nat | row < layout.height && col < layout.width ::
                  pixels[Idx(layout.width, layout.height, col, row)] ==
                  ReadDibPixel(memory[..], layout.format, (layout.height - 1 - row) * layout.Stride(), col)
    {
      var l := layout;
      for row := 0 to l.height
        invariant forall r: nat, c: nat | r < row && c < l.width ::
                    pixels[Idx(l.width, l.height, c, r)] == ReadDibPixel(memory[..], l.format, l.RowOffset(r), c)
      {
        for col := 0 to l.width
          invariant forall r: nat, c: nat | (r < row || (r == row && c < col)) && c < l.width ::
                      pixels[Idx(l.width, l.height, c, r)] == ReadDibPixel(memory[..], l.format, l.RowOffset(r), c)
        {
          var color := ReadDibPixel(memory[..], l.format, l.RowOffset(row), col);
          var idx := Idx(l.width, l.height, col, row);
          forall r: nat, c: nat | r < l.height && c < l.width && Idx(l.width, l.height, c, r) == idx
              ensures r == row && c == col {
            IdxInjective(l.width, l.height, c, r, col, row);
          }
          pixels[idx] := color;
        }
      }
    }

    /** Encodes every pixel into a zeroed buffer and writes the buffer over the guest bytes. */
    method FlushPixels()
      requires Valid()
      modifies memory
      ensures IsFlushed(layout, pixels[..], memory[..])
      ensures layout.topDown ==>
                forall row: nat, col: nat | row < layout.height && col < layout.width ::
                  CellIs(memory[..], layout.format.bitCount, row * layout.Stride(), col,
                         Encode(layout.format, pixels[Idx(layout.width, layout.height, col, row)]))
      ensures !layout.topDown ==>
                forall row: nat, col: nat | row < layout.height && col < layout.width ::
                  CellIs(memory[..], layout.format.bitCount, (layout.height - 1 - row) * layout.Stride(), col,
                         Encode(layout.format, pixels[Idx(layout.width, layout.height, col, row)]))
      ensures PaddingClear(layout, memory[..])
    {
      var l := layout;
      var raw := new byte[l.Stride() * l.height](_ => 0);
      ZeroPadding(l, raw[..]);
      for row := 0 to l.height
        invariant FlushedUpTo(l, pixels[..], raw[..], row, 0) && PaddingClear(l, raw[..])
      {
        for col := 0 to l.width
          invariant FlushedUpTo(l, pixels[..], raw[..], row, col) && PaddingClear(l, raw[..])
        {
          StoreAdvances(l, pixels[..], raw[..], row, col);
          StoreKeepsPadding(l, raw[..], row, col,
                            Encode(l.format, pixels[Idx(l.width, l.height, col, row)]));
          WriteDibPixel(raw, l.format, l.RowOffset(row), col, pixels[Idx(l.width, l.height, col, row)]);
        }
      }
      CopyBytes(raw, memory);
      FlushedLines(l, pixels[..], memory[..]);
    }

    /** What `LineTo` does to a section: sync, draw, flush.  Every pixel ends as its old
        colour, blended with the pen where the clipped line runs, as far as the format can say;
        off the line an exact cell keeps its colour, whatever the others hold. */
    method LineTo(line: Line, color: Argb, clip: seq<Rect>)
      requires Valid()
      modifies pixels, memory
      ensures forall row: nat, col: nat | row < layout.height && col < layout.width ::
                PixelAt(memory[..], row, col) ==
                Stored(layout.format, DrawnPixel(line, color, clip, row, col, PixelAt(old(memory[..]), row, col)))
      ensures forall row: nat, col: nat | row < layout.height && col < layout.width ::
                !(line.Has(col, row) && Covers(clip, col, row)) && ExactAt(layout, old(memory[..]), row, col) ==>
                  PixelAt(memory[..], row, col) == PixelAt(old(memory[..]), row, col)
    {
      SyncPixels();
      ghost var synced := pixels[..];
      DrawLineClipped(pixels, layout.width, layout.height, line, color, clip);
      FlushPixels();
      forall row: nat, col: nat | row < layout.height && col < layout.width
        ensures PixelAt(memory[..], row, col) ==
                Stored(layout.format, DrawnPixel(line, color, clip, row, col, PixelAt(old(memory[..]), row, col)))
        ensures !(line.Has(col, row) && Covers(clip, col, row)) && ExactAt(layout, old(memory[..]), row, col) ==>
                  PixelAt(memory[..], row, col) == PixelAt(old(memory[..]), row, col)
      {
        assert InBitmap(layout.width, layout.height, col, row);
        assert HoldsCell(layout, pixels[..], memory[..], row, col);
        if !(line.Has(col, row) && Covers(clip, col, row)) && ExactAt(layout, old(memory[..]), row, col) {
          UntouchedPixelKeepsIff(layout, old(memory[..]), pixels[..], memory[..], row, col);
          ExactAtRoundTrips(layout, old(memory[..]), row, col);
        }
      }
    }

    function PixelAt(raw: seq<byte>, row: nat, col: nat): Argb {
      ReadDibPixel(raw, layout.format, layout.RowOffset(row), col)
    }
  }

  /** What a colour becomes by being stored in a cell and read again. */
  function Stored(f: Format, c: Argb): Argb { Decode(f, Encode(f, c)) }

  ghost function DrawnPixel(line: Line, color: Argb, clip: seq<Rect>, row: nat, col: nat, was: Argb): Argb {
    if line.Has(col, row) && Covers(clip, col, row) then BlendSourceOver(was, color) else was
  }

  method CopyBytes(src: array<byte>, dst: array<byte>)
    requires src.Length == dst.Length && src != dst
    modifies dst
    ensures dst[..] == src[..]
  {
    for k := 0 to src.Length
      invariant dst[..k] == src[..k]
    {
      dst[k] := src[k];
    }
  }
}
