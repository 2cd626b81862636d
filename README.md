# A verified model of the `Image<T>` pixel view (xiapi)

The XIMEA camera binding hands out captured frames as `Image<T>`: a driver
image descriptor (`XI_IMG`) held by value, tagged with the pixel type `T` in
which its raw byte buffer is to be read. This project models that view in
Dafny and proves what its bounds-checked accessor guarantees.

- `wrappers.dfy` — `Option`, the model of Rust's `Option`.
- `image.dfy` — module `ImageView`:
  - `Descriptor`: the descriptor fields the view uses (`size`, `width`,
    `height`, `padding_x` as `u32` values, and the buffer pointer `bp`,
    either `Null` or the bytes it points at).
  - `Image`: a descriptor plus `pixSize`, the byte size of `T`. It may be
    0, as it is for a zero-sized Rust type.
  - `New` / `Default`: the all-zero descriptor with its `size` field set.
  - `Image.Pixel`: the bounds-checked accessor. It gives the pixel's byte
    offset in the buffer, or `None`.
  - `Image.PixelBytes`: the `pixSize` bytes that the returned reference
    covers.
  - `Image.Width` / `Image.Height`: the getters.
  - `Image.Locate`: the inverse of `Pixel`. It is not in the source; it is
    the reference that shows the accessor's offsets are one-to-one.
  - `Frame`: a reference layout of a whole frame, defined row by row
    without multiplication. Each row is its pixels side by side, then its
    padding bytes. It is what the driver writes into the buffer.

The row stride is `width * pixSize + padding_x` bytes (`Image.Stride`).
The lemmas show the following. Every present pixel lies in the data part of
its own row, so inside a buffer of `stride * height` bytes. No padding
byte is ever addressed, so writing one changes no pixel. For a non-zero
pixel size, distinct pixels occupy disjoint byte ranges and each offset
maps back to its coordinate; with `pixSize` 0 all pixels of a row share
one offset.
The arithmetic fits a 64-bit `usize` whenever `stride * height` does.
Finally, a frame laid out row by row by the driver reads back through
the accessor: each in-bounds pixel yields exactly the bytes written for it.

`pixel`, `width` and `height` take `&self`. Here they are functions on
immutable values. So they change nothing, and equal arguments always give
equal results.

## Model

| member | source | states |
|---|---|---|
| ImageView.New | src/image.rs:23-33 | the fresh view has width 0, height 0, padding 0, a null buffer, `size` equal to the descriptor's byte size truncated to `u32`, the given pixel size, and no pixel at any coordinate, (0, 0) included |
| ImageView.Default | src/image.rs:73-76 | the default view equals `New`: width and height 0 and no pixel anywhere |
| ImageView.Image.Pixel | src/image.rs:43-60 | a pixel is present exactly when the buffer is non-null, `x < width` and `y < height`; its offset is `stride * y + x * size` with `stride = width * size + padding_x` |
| ImageView.Image.Width | src/image.rs:63-65 | returns the stored `width` unchanged; no present pixel has a column at or beyond it |
| ImageView.Image.Height | src/image.rs:67-70 | returns the stored `height` unchanged; no present pixel has a row at or beyond it |
| ImageView.Image.PixelBytes | src/image.rs:53-59 | over a buffer of at least `stride * height` bytes, the bytes behind a present pixel are exactly `size` bytes starting at its offset and inside the buffer; absent exactly when `Pixel` is |
| ImageView.PixelInRowData | src/image.rs:53-55 | a present pixel (x, y) lies in `[stride * y, stride * y + width * size)`, the pixel data of row y |
| ImageView.PixelInBuffer | src/image.rs:50-55 | for every in-bounds (x, y), `offset + size <= stride * height` |
| ImageView.PaddingNeverAddressed | src/image.rs:53-55 | no byte of any present pixel falls in `[stride * row + width * size, stride * (row + 1))`, the padding of any row |
| ImageView.PaddingWriteInvisible | src/image.rs:53-59 | overwriting a padding byte leaves the bytes of every pixel unchanged |
| ImageView.UnpaddedStride | src/image.rs:54 | with `padding_x = 0` the stride is exactly `width * size`, for every image |
| ImageView.UnpaddedRowMajor | src/image.rs:54-55 | with `padding_x = 0` the offset of a present pixel is `(y * width + x) * size` |
| ImageView.EarlierRowFirst | src/image.rs:54-55 | a present pixel in row y1 ends at or before the start of any present pixel in a later row y2 |
| ImageView.EarlierColumnFirst | src/image.rs:54-55 | within one row, a present pixel at column x1 ends at or before the start of any present pixel at a later column x2 |
| ImageView.DistinctPixelsDisjoint | src/image.rs:54-55 | for `size > 0`, two distinct in-bounds coordinates have disjoint `size`-byte ranges and different offsets |
| ImageView.PixelThenLocate | src/image.rs:54-55 | for `size > 0`, the offset of pixel (x, y) maps back to (x, y) |
| ImageView.LocateThenPixel | src/image.rs:54-55 | every offset that `Locate` maps to (x, y) is in bounds and is the offset `Pixel` gives for (x, y) |
| ImageView.FrameLength | src/image.rs:53-54 | a frame of rows that each take `stride` bytes, padding included, is `rows * stride` bytes long |
| ImageView.FrameByteAt | src/image.rs:53-55 | in a frame whose rows each take `stride` bytes, byte `j` of pixel `c` of row `y` sits at `stride * y + c * size + j` |
| ImageView.FrameReadsBack | src/image.rs:50-59 | for a frame of the image's shape laid out row by row with arbitrary padding and followed by any further bytes, the buffer holds `stride * height` bytes and every in-bounds pixel reads back exactly the bytes written for it |
| ImageView.OffsetFitsUsize | src/image.rs:54-55 | if `stride * height` fits a 64-bit `usize`, so do `width * size`, the stride, `stride * y`, `x * size` and the offset |

## Left out

- The reinterpretation of the bytes at the offset as a `&T` (`buffer.add(offset) as *const T`, `as_ref`). The model yields the offset, or the bytes there. Whether `T` matches the layout the driver wrote cannot be checked, by the source or here.
- `as_ref` on the offset pointer can only return `None` if `buffer + offset` wraps to null. Since the buffer is non-null and addressable, the model treats the result as present.
- The driver-private fields of `XI_IMG`. Only `size`, `width`, `height`, `padding_x` and `bp` are modelled.
- `MaybeUninit::zeroed().assume_init()` becomes "every modelled field is 0, the buffer is null".
- `size_of::<XI_IMG>()` depends on the driver's headers. It is the parameter `descriptorBytes` of `New` and `Default`. The `as u32` cast is modelled as reduction modulo 2^32.
- `PhantomData<T>` is replaced by the pixel size `pixSize` stored in the view.
- `pub(crate)` visibility of `new`: Dafny modules here export everything.
- The acquisition call that fills the descriptor is driver I/O outside this file. Its promise of a buffer of at least `stride * height` bytes is the predicate `Image.BufferFits`, which `PixelBytes` requires.
- The lifetimes of the buffer and of the returned reference are memory-ownership concerns that the code does not enforce.
- ImageView.Image.Pixel: computes with unbounded integers. On `usize` overflow Rust panics in debug builds and wraps in release builds; the model captures neither. `OffsetFitsUsize` gives the condition under which no overflow occurs.
- Idempotence and freedom from side effects of `pixel`, `width` and `height` have no lemma of their own. They hold because the model's operations are functions on immutable values.
