/**
  A model of `Image<T>` from src/image.rs: a typed, bounds-checked view over an
  image descriptor (`XI_IMG`) that the camera driver fills in place.

  The pixel type `T` is carried by the view only as a type tag; the model keeps
  what the accessor uses of it, its size in bytes (`pixSize`, which may be 0 as
  for a zero-sized Rust type). The accessor yields the byte offset of the pixel
  in the driver's buffer rather than a reinterpreted reference.
*/
module ImageView {
  import opened Wrappers

  /** 2^32: the range of a `u32` field of the descriptor. */
  const U32Limit: nat := 0x1_0000_0000
  /** The largest `usize` on a 64-bit target. */
  const UsizeMax: nat := 0xFFFF_FFFF_FFFF_FFFF

  type U32 = n: int | 0 <= n < U32Limit
  type Usize = n: int | 0 <= n <= UsizeMax

  /** The descriptor's `bp` field: null until an acquisition fills it. */
  datatype Buffer = Null | Bytes(data: seq<bv8>)

  /** The fields of `XI_IMG` that this view reads or writes. */
  datatype Descriptor = Descriptor(size: U32, width: U32, height: U32, paddingX: U32, bp: Buffer)

  datatype Image = Image(xiImg: Descriptor, pixSize: nat)
  {
    /** Bytes per row: the pixel data of the row followed by its padding. */
    function Stride(): nat {
      xiImg.width * pixSize + xiImg.paddingX
    }

    /** `Image::pixel`: the byte offset of pixel (x, y), absent when the buffer
        is null or the coordinate lies outside width × height. */
    function Pixel(x: Usize, y: Usize): (r: Option<nat>)
      ensures r.Some? <==> xiImg.bp.Bytes? && x < xiImg.width && y < xiImg.height
      ensures r.Some? ==> r.value == Stride() * y + x * pixSize
    {
      if xiImg.bp.Null? then None
      else if x >= xiImg.width || y >= xiImg.height then None
      else
        Some(Stride() * y + x * pixSize)
    }

    /** `Image::width`: the stored field, which bounds every present column. */
    function Width(): (w: U32)
      ensures w == xiImg.width
      ensures forall x: Usize, y: Usize :: Pixel(x, y).Some? ==> x < w
    {
      xiImg.width
    }

    /** `Image::height`: the stored field, which bounds every present row. */
    function Height(): (h: U32)
      ensures h == xiImg.height
      ensures forall x: Usize, y: Usize :: Pixel(x, y).Some? ==> y < h
    {
      xiImg.height
    }

    /** What the acquisition promises of a filled descriptor: a non-null
        buffer holds at least `stride * height` bytes. */
    predicate BufferFits() {
      xiImg.bp.Bytes? ==> Stride() * xiImg.height <= |xiImg.bp.data|
    }

    /** The `pixSize` bytes that the reference returned by `Image::pixel`
        points at. */
    function PixelBytes(x: Usize, y: Usize): (r: Option<seq<bv8>>)
      requires BufferFits()
      ensures r.Some? <==> Pixel(x, y).Some?
      ensures r.Some? ==> Pixel(x, y).value + pixSize <= |xiImg.bp.data|
      ensures r.Some? ==> |r.value| == pixSize
      ensures r.Some? ==> forall i :: 0 <= i < pixSize ==> r.value[i] == xiImg.bp.data[Pixel(x, y).value + i]
    {
      match Pixel(x, y)
      case None => None
      case Some(offset) =>
        PixelInBuffer(this, x, y);
        Some(xiImg.bp.data[offset .. offset + pixSize])
    }

    /** The inverse of `Pixel`: the coordinate of the pixel that starts at
        byte `offset`, if any. Not part of the source; it is the reference
        against which the accessor's offsets are shown to be one-to-one. */
    function Locate(offset: nat): Option<(nat, nat)> {
      var s := Stride();
      if xiImg.bp.Null? || pixSize == 0 || s == 0 then None
      else
        var row, col := offset / s, offset % s;
        if row < xiImg.height && col % pixSize == 0 && col / pixSize < xiImg.width
        then Some((col / pixSize, row))
        else None
    }
  }

  /** `Image::new`: a zeroed descriptor whose `size` field holds the byte size
      of the descriptor record (`descriptorBytes`, cast to `u32`). */
  function New(pixSize: nat, descriptorBytes: nat): (r: Image)
    ensures r.pixSize == pixSize
    ensures r.xiImg.size == descriptorBytes % U32Limit
    ensures r.Width() == 0 && r.Height() == 0 && r.xiImg.paddingX == 0 && r.xiImg.bp == Null
    ensures forall x: Usize, y: Usize :: r.Pixel(x, y) == None
  {
    Image(Descriptor(descriptorBytes % U32Limit, 0, 0, 0, Null), pixSize)
  }

  /** `Default::default`: the same value as `New`. */
  function Default(pixSize: nat, descriptorBytes: nat): (r: Image)
    ensures r == New(pixSize, descriptorBytes)
    ensures r.Width() == 0 && r.Height() == 0
    ensures forall x: Usize, y: Usize :: r.Pixel(x, y) == None
  {
    New(pixSize, descriptorBytes)
  }

  /** Euclidean division is determined by any quotient/remainder pair. */
  lemma DivModUnique(a: int, d: int, q: int, r: int)
    requires d > 0 && 0 <= r < d && a == q * d + r
    ensures a / d == q && a % d == r
  {
    var k := q - a / d;
    assert k * d == a % d - r;
  }

  /** Multiplying by the same factor keeps the order of naturals. */
  lemma {:induction false} MulMono(a: nat, b: nat, c: nat)
    requires a <= b
    ensures a * c <= b * c
    decreases b - a
  {
    if a < b {
      MulMono(a, b - 1, c);
      assert (b - 1) * c + c == b * c;
    }
  }

  /** One more row adds one more stride. */
  lemma MulSucc(n: nat, c: nat)
    ensures (n + 1) * c == n * c + c
  {
  }

  /** A present pixel's bytes lie in the data part of its own row. */
  lemma PixelInRowData(img: Image, x: Usize, y: Usize)
    requires img.Pixel(x, y).Some?
    ensures img.Stride() * y <= img.Pixel(x, y).value
    ensures img.Pixel(x, y).value + img.pixSize <= img.Stride() * y + img.xiImg.width * img.pixSize
  {
    MulMono(x + 1, img.xiImg.width, img.pixSize);
  }

  /** Every present pixel lies inside a buffer of `stride * height` bytes. */
  lemma PixelInBuffer(img: Image, x: Usize, y: Usize)
    requires img.Pixel(x, y).Some?
    ensures img.Pixel(x, y).value + img.pixSize <= img.Stride() * img.xiImg.height
  {
    var st := img.Stride();
    PixelInRowData(img, x, y);
    assert st * (y + 1) == st * y + st;
    MulMono(y + 1, img.xiImg.height, st);
  }

  /** No byte of a present pixel falls in the padding at the end of any row. */
  lemma PaddingNeverAddressed(img: Image, x: Usize, y: Usize, b: nat, row: nat)
    requires img.Pixel(x, y).Some?
    requires img.Pixel(x, y).value <= b < img.Pixel(x, y).value + img.pixSize
    ensures !(img.Stride() * row + img.xiImg.width * img.pixSize <= b < img.Stride() * (row + 1))
  {
    var st, ws := img.Stride(), img.xiImg.width * img.pixSize;
    PixelInRowData(img, x, y);
    assert st * y <= b < st * y + ws;
    if row < y {
      assert st * (row + 1) == st * row + st;
      MulMono(row + 1, y, st);
    } else if row > y {
      assert st * (y + 1) == st * y + st;
      MulMono(y + 1, row, st);
    }
  }

  /** Without padding a row is exactly its pixel data. */
  lemma UnpaddedStride(img: Image)
    requires img.xiImg.paddingX == 0
    ensures img.Stride() == img.xiImg.width * img.pixSize
  {
  }

  /** Without padding pixels are laid out in row-major order. */
  lemma UnpaddedRowMajor(img: Image, x: Usize, y: Usize)
    requires img.xiImg.paddingX == 0
    requires img.Pixel(x, y).Some?
    ensures img.Pixel(x, y).value == (y * img.xiImg.width + x) * img.pixSize
  {
  }

  /** A present pixel in an earlier row ends before any pixel of a later
      row begins. */
  lemma EarlierRowFirst(img: Image, x1: Usize, y1: Usize, x2: Usize, y2: Usize)
    requires img.Pixel(x1, y1).Some? && img.Pixel(x2, y2).Some?
    requires y1 < y2
    ensures img.Pixel(x1, y1).value + img.pixSize <= img.Pixel(x2, y2).value
  {
    var st := img.Stride();
    PixelInRowData(img, x1, y1);
    PixelInRowData(img, x2, y2);
    assert st * (y1 + 1) == st * y1 + st;
    MulMono(y1 + 1, y2, st);
  }

  /** Within one row, a pixel further left ends before one further right
      begins. */
  lemma EarlierColumnFirst(img: Image, x1: Usize, x2: Usize, y: Usize)
    requires img.Pixel(x1, y).Some? && img.Pixel(x2, y).Some?
    requires x1 < x2
    ensures img.Pixel(x1, y).value + img.pixSize <= img.Pixel(x2, y).value
  {
    MulMono(x1 + 1, x2, img.pixSize);
  }

  /** For a non-zero pixel size, two distinct present pixels occupy disjoint
      byte ranges. */
  lemma DistinctPixelsDisjoint(img: Image, x1: Usize, y1: Usize, x2: Usize, y2: Usize)
    requires img.pixSize > 0
    requires img.Pixel(x1, y1).Some? && img.Pixel(x2, y2).Some?
    requires (x1, y1) != (x2, y2)
    ensures img.Pixel(x1, y1).value + img.pixSize <= img.Pixel(x2, y2).value
         || img.Pixel(x2, y2).value + img.pixSize <= img.Pixel(x1, y1).value
    ensures img.Pixel(x1, y1) != img.Pixel(x2, y2)
  {
    if y1 < y2 {
      EarlierRowFirst(img, x1, y1, x2, y2);
    } else if y2 < y1 {
      EarlierRowFirst(img, x2, y2, x1, y1);
    } else if x1 < x2 {
      EarlierColumnFirst(img, x1, x2, y1);
    } else {
      EarlierColumnFirst(img, x2, x1, y1);
    }
  }

  /** Every present pixel's offset leads back to its coordinate. */
  lemma PixelThenLocate(img: Image, x: Usize, y: Usize)
    requires img.pixSize > 0
    requires img.Pixel(x, y).Some?
    ensures img.Locate(img.Pixel(x, y).value) == Some((x, y))
  {
    var st, s := img.Stride(), img.pixSize;
    var offset := img.Pixel(x, y).value;
    PixelInRowData(img, x, y);
    assert x * s < st;
    DivModUnique(offset, st, y, x * s);
    DivModUnique(x * s, s, x, 0);
  }

  /** Every offset that `Locate` accepts is the offset of that pixel. */
  lemma LocateThenPixel(img: Image, offset: nat)
    requires img.Locate(offset).Some?
    ensures img.Locate(offset).value.0 < img.xiImg.width
    ensures img.Locate(offset).value.1 < img.xiImg.height
    ensures img.Pixel(img.Locate(offset).value.0, img.Locate(offset).value.1) == Some(offset)
  {
    var st, s := img.Stride(), img.pixSize;
    var row, col := offset / st, offset % st;
    assert offset == st * row + col;
    assert col == (col / s) * s;
  }

  /** When a buffer of `stride * height` bytes is addressable, every value the
      accessor computes (row bytes, stride, row start, column bytes, offset)
      fits in a 64-bit `usize`. */
  lemma OffsetFitsUsize(img: Image, x: Usize, y: Usize)
    requires img.Stride() * img.xiImg.height <= UsizeMax
    requires img.Pixel(x, y).Some?
    ensures img.xiImg.width * img.pixSize <= UsizeMax
    ensures img.Stride() <= UsizeMax
    ensures img.Stride() * y <= UsizeMax
    ensures x * img.pixSize <= UsizeMax
    ensures img.Pixel(x, y).value <= UsizeMax
  {
    var st, offset := img.Stride(), img.Pixel(x, y).value;
    PixelInBuffer(img, x, y);
    assert offset <= UsizeMax;
    MulMono(0, y, st);
    MulMono(0, x, img.pixSize);
    assert st * y <= offset && x * img.pixSize <= offset;
    MulMono(1, img.xiImg.height, st);
    assert img.xiImg.width * img.pixSize <= st <= UsizeMax;
  }

  /** Overwriting a padding byte leaves every pixel's bytes unchanged. */
  lemma PaddingWriteInvisible(img: Image, b: nat, row: nat, v: bv8, x: Usize, y: Usize)
    requires img.BufferFits() && img.xiImg.bp.Bytes?
    requires b < |img.xiImg.bp.data|
    requires img.Stride() * row + img.xiImg.width * img.pixSize <= b < img.Stride() * (row + 1)
    ensures var img' := img.(xiImg := img.xiImg.(bp := Bytes(img.xiImg.bp.data[b := v])));
            img'.BufferFits() && img'.PixelBytes(x, y) == img.PixelBytes(x, y)
  {
    var data := img.xiImg.bp.data;
    var img' := img.(xiImg := img.xiImg.(bp := Bytes(data[b := v])));
    assert img'.Stride() == img.Stride() && img'.Pixel(x, y) == img.Pixel(x, y);
    if img.Pixel(x, y).Some? {
      var offset := img.Pixel(x, y).value;
      var end := offset + img.pixSize;
      PixelInBuffer(img, x, y);
      if offset <= b < end {
        PaddingNeverAddressed(img, x, y, b, row);
      }
      assert b < offset || end <= b;
      assert data[b := v][offset .. end] == data[offset .. end];
    }
  }

  /** The bytes of a run of pixels laid side by side. */
  function Concat(pixels: seq<seq<bv8>>): seq<bv8>
  {
    if pixels == [] then []
    else Concat(pixels[..|pixels| - 1]) + pixels[|pixels| - 1]
  }

  /** A frame as the driver lays it out in the buffer: row after row, each
      row's pixels side by side followed by that row's padding bytes. */
  function Frame(rows: seq<seq<seq<bv8>>>, pads: seq<seq<bv8>>): seq<bv8>
    requires |pads| == |rows|
  {
    if rows == [] then []
    else
      var n := |rows| - 1;
      Frame(rows[..n], pads[..n]) + LaidOutRow(rows[n], pads[n])
  }

  /** One row as the driver lays it out: its pixels, then its padding. */
  function LaidOutRow(row: seq<seq<bv8>>, pad: seq<bv8>): seq<bv8> {
    Concat(row) + pad
  }

  /** Every pixel of the run is `pixSize` bytes long. */
  predicate UniformPixels(pixels: seq<seq<bv8>>, pixSize: nat) {
    forall c | 0 <= c < |pixels| :: |pixels[c]| == pixSize
  }

  /** `rows` holds `height` rows of `width` pixels of `pixSize` bytes, and
      every row is followed by `paddingX` padding bytes. */
  predicate FrameShape(rows: seq<seq<seq<bv8>>>, pads: seq<seq<bv8>>, width: nat, height: nat, pixSize: nat, paddingX: nat) {
    && |rows| == height
    && |pads| == height
    && (forall r | 0 <= r < |rows| :: |rows[r]| == width && UniformPixels(rows[r], pixSize))
    && (forall r | 0 <= r < |pads| :: |pads[r]| == paddingX)
  }

  lemma {:induction false} ConcatLength(pixels: seq<seq<bv8>>, pixSize: nat)
    requires UniformPixels(pixels, pixSize)
    ensures |Concat(pixels)| == |pixels| * pixSize
  {
    if pixels != [] {
      var n := |pixels| - 1;
      ConcatLength(pixels[..n], pixSize);
      assert |Concat(pixels)| == n * pixSize + pixSize;
    }
  }

  /** Byte `j` of pixel `c` sits at `c * pixSize + j` in the run. */
  lemma {:induction false} ConcatAt(pixels: seq<seq<bv8>>, pixSize: nat, c: nat, j: nat)
    requires UniformPixels(pixels, pixSize)
    requires c < |pixels| && j < pixSize
    ensures c * pixSize + j < |Concat(pixels)|
    ensures Concat(pixels)[c * pixSize + j] == pixels[c][j]
  {
    var n := |pixels| - 1;
    ConcatLength(pixels, pixSize);
    ConcatLength(pixels[..n], pixSize);
    if c < n {
      ConcatAt(pixels[..n], pixSize, c, j);
    } else {
      assert c * pixSize + j == |Concat(pixels[..n])| + j;
    }
  }

  /** Every row, laid out with its padding, takes `stride` bytes. */
  predicate RowsOfStride(rows: seq<seq<seq<bv8>>>, pads: seq<seq<bv8>>, stride: nat)
    requires |pads| == |rows|
  {
    forall r | 0 <= r < |rows| :: |LaidOutRow(rows[r], pads[r])| == stride
  }

  lemma {:induction false} FrameLength(rows: seq<seq<seq<bv8>>>, pads: seq<seq<bv8>>, stride: nat)
    requires |pads| == |rows| && RowsOfStride(rows, pads, stride)
    ensures |Frame(rows, pads)| == |rows| * stride
  {
    if rows != [] {
      var n := |rows| - 1;
      var front, last := Frame(rows[..n], pads[..n]), LaidOutRow(rows[n], pads[n]);
      assert forall r | 0 <= r < n :: rows[..n][r] == rows[r] && pads[..n][r] == pads[r];
      FrameLength(rows[..n], pads[..n], stride);
      assert |front| == n * stride && |last| == stride;
      assert Frame(rows, pads) == front + last;
      MulSucc(n, stride);
    }
  }

  /** Byte `k` of row `y`, padding included, sits at `stride * y + k` in the
      frame. */
  lemma {:induction false} FrameAt(rows: seq<seq<seq<bv8>>>, pads: seq<seq<bv8>>, stride: nat, y: nat, k: nat)
    requires |pads| == |rows| && RowsOfStride(rows, pads, stride)
    requires y < |rows| && k < stride
    ensures stride * y + k < |Frame(rows, pads)|
    ensures Frame(rows, pads)[stride * y + k] == LaidOutRow(rows[y], pads[y])[k]
  {
    var n := |rows| - 1;
    assert RowsOfStride(rows[..n], pads[..n], stride);
    FrameLength(rows[..n], pads[..n], stride);
    if y < n {
      FrameAt(rows[..n], pads[..n], stride, y, k);
    } else {
      assert |LaidOutRow(rows[n], pads[n])| == stride;
      assert stride * y + k == |Frame(rows[..n], pads[..n])| + k;
    }
  }

  /** A row of `width` pixels of `pixSize` bytes and `paddingX` padding bytes
      takes exactly one stride. */
  lemma RowLength(row: seq<seq<bv8>>, pad: seq<bv8>, width: nat, pixSize: nat, paddingX: nat)
    requires |row| == width && UniformPixels(row, pixSize) && |pad| == paddingX
    ensures |LaidOutRow(row, pad)| == width * pixSize + paddingX
  {
    ConcatLength(row, pixSize);
  }

  /** Every row of a frame of the image's shape takes one stride. */
  lemma FrameRowsOfStride(img: Image, rows: seq<seq<seq<bv8>>>, pads: seq<seq<bv8>>)
    requires FrameShape(rows, pads, img.xiImg.width, img.xiImg.height, img.pixSize, img.xiImg.paddingX)
    ensures RowsOfStride(rows, pads, img.Stride())
  {
    forall r | 0 <= r < |rows|
      ensures |LaidOutRow(rows[r], pads[r])| == img.Stride()
    {
      RowLength(rows[r], pads[r], img.xiImg.width, img.pixSize, img.xiImg.paddingX);
    }
  }

  /** Byte `j` of pixel `c` sits at `c * pixSize + j` in the laid-out row. */
  lemma RowByteAt(row: seq<seq<bv8>>, pad: seq<bv8>, pixSize: nat, c: nat, j: nat)
    requires UniformPixels(row, pixSize)
    requires c < |row| && j < pixSize
    ensures c * pixSize + j < |LaidOutRow(row, pad)|
    ensures LaidOutRow(row, pad)[c * pixSize + j] == row[c][j]
  {
    ConcatAt(row, pixSize, c, j);
  }

  /** Byte `j` of pixel `c` of row `y` sits at `stride * y + c * pixSize + j`
      in the frame. */
  lemma FrameByteAt(rows: seq<seq<seq<bv8>>>, pads: seq<seq<bv8>>, stride: nat, pixSize: nat, c: nat, y: nat, j: nat)
    requires |pads| == |rows| && RowsOfStride(rows, pads, stride)
    requires y < |rows| && UniformPixels(rows[y], pixSize)
    requires c < |rows[y]| && j < pixSize
    ensures stride * y + c * pixSize + j < |Frame(rows, pads)|
    ensures Frame(rows, pads)[stride * y + c * pixSize + j] == rows[y][c][j]
  {
    RowByteAt(rows[y], pads[y], pixSize, c, j);
    assert |LaidOutRow(rows[y], pads[y])| == stride;
    FrameAt(rows, pads, stride, y, c * pixSize + j);
  }

  /** A frame laid out by the driver reads back through the accessor: the
      buffer is large enough, and every in-bounds pixel yields exactly the
      bytes written for it, whatever the padding holds and whatever bytes
      follow the frame in the buffer. */
  lemma FrameReadsBack(img: Image, rows: seq<seq<seq<bv8>>>, pads: seq<seq<bv8>>, tail: seq<bv8>, x: Usize, y: Usize)
    requires FrameShape(rows, pads, img.xiImg.width, img.xiImg.height, img.pixSize, img.xiImg.paddingX)
    requires img.xiImg.bp == Bytes(Frame(rows, pads) + tail)
    requires x < img.xiImg.width && y < img.xiImg.height
    ensures img.BufferFits()
    ensures img.PixelBytes(x, y) == Some(rows[y][x])
  {
    FrameRowsOfStride(img, rows, pads);
    FrameLength(rows, pads, img.Stride());
    assert img.BufferFits();
    var offset := img.Pixel(x, y).value;
    var bytes := img.PixelBytes(x, y).value;
    assert |bytes| == |rows[y][x]| == img.pixSize;
    forall j | 0 <= j < img.pixSize
      ensures bytes[j] == rows[y][x][j]
    {
      FrameByteAt(rows, pads, img.Stride(), img.pixSize, x, y, j);
    }
    assert bytes == rows[y][x];
  }
}
