# blind-transform, modelled in Dafny

`blind-transform` is one filter of the *blind* video toolkit. It reads a
stream of raw video frames on standard input and a second stream of 3x3
"xyza" matrix frames, each carrying six affine coefficients `a..f`. For
every matrix frame it zeroes one output frame. It then reads up to `height`
input rows and sends each source pixel forward to
`(round(a*x + b*y + c + w/2), round(d*x + e*y + f + h/2))`, with `(x, y)`
measured from the frame centre. A pixel is copied to the flat byte offset
`(y_out*width + x_out)*pixel_size` when that offset lies in
`[0, frame_size)`, and dropped otherwise. Finally the filter writes the
frame out.

The model covers:

- the per-frame scatter loop of `process`, as a pure row-major fold
  (`Scatter`) and as an imperative method over one reused byte array
  (`Driver.Process`);
- the coefficient layout of a matrix frame (`Matrix`);
- the map from a source pixel to its destination (`Affine`);
- the checks `main` makes before the loop starts (`Blind`).

Its main theorem, `Gather.ScatterIsGather`, sets the scatter fold beside an
independent reference that works per output byte. Byte `j` of output pixel
`q` is byte `j` of the last source pixel, in row-major order, whose flat
destination index is `q`. When no source pixel lands on `q`, the byte is 0.
The zero-fill, drop, last-write-wins and identity properties all follow
from that theorem.

Modules (one file each): `Arith` (multiplication facts), `Bytes` (memset,
memcpy and row flattening on sequences), `Streams` (stream geometry),
`Scatter`, `Gather`, `TransformProperties`, `Matrix`, `Affine`, `Driver`,
`Blind`.

Inputs that are I/O in the source are parameters here:

- the input stream is its geometry (`Stream`) plus the sequence of rows it
  will deliver;
- the matrix stream is its geometry plus its sequence of frames, each given
  as 36 element values;
- the output is the sequence of emitted frames, plus the stream header in
  `Blind.Output`.

## Model

| member | source | states |
|---|---|---|
| `Bytes.Zeroes` | src/blind-transform.c:34 | the cleared output buffer has `frame_size` bytes, every one zero |
| `Bytes.Overwrite` | src/blind-transform.c:53 | the pixel copy: bytes `[off, off+n)` hold the source bytes in order, every other byte is unchanged, length is kept |
| `Scatter.AcceptedIffFlatInFrame` | src/blind-transform.c:49-51 | an offset is accepted iff `pixel_size > 0` and the flat index `y_out*width + x_out` is in `[0, width*height)`; coordinates are not checked one by one, so an out-of-row `x_out` can be accepted |
| `Scatter.CopyInBounds` | src/blind-transform.c:48-53 | for an accepted destination, `offset >= 0` and `offset + pixel_size <= frame_size`; the source span `x_in*pixel_size .. + pixel_size` ends by `row_size` |
| `Scatter.PlacePixel` | src/blind-transform.c:42-54 | one pixel step keeps the frame length and leaves the frame untouched when the offset is rejected (dropped, not clamped) |
| `Scatter.ScatterRow` | src/blind-transform.c:40-55 | the pixel loop over one row keeps the frame length |
| `Scatter.ScatterRows` | src/blind-transform.c:36-56 | the row loop over the rows read keeps the frame length |
| `Scatter.TransformFrame` | src/blind-transform.c:34-56 | one transformed frame is exactly `frame_size` bytes, whatever the number of rows read |
| `Gather.LastInRow` | src/blind-transform.c:40-53 | reference search: returns the right-most pixel before `n` in row `y` that lands on slot `q`, with no later pixel of the row landing there, or `None` when no pixel of the row lands on `q` |
| `Gather.LastCover` | src/blind-transform.c:36-53 | reference search: returns the last pixel in row-major order among the rows read that lands on slot `q`, with no later pixel landing there, or `None` when none lands on `q` |
| `Gather.PlacePixelSlot` | src/blind-transform.c:49-53 | one pixel step rewrites exactly the slot its destination names, with the source pixel's bytes; every other slot keeps its bytes |
| `Gather.ScatterRowSlot` | src/blind-transform.c:40-55 | after the pixel loop, each slot holds the bytes of the last pixel of the row landing on it, or its earlier bytes |
| `Gather.ScatterRowsSlot` | src/blind-transform.c:36-56 | after the row loop, each slot holds the bytes of the last source pixel landing on it, or its earlier bytes |
| `Gather.TransformSlot` | src/blind-transform.c:34-56 | per-slot form of the main theorem, starting from the zeroed buffer |
| `Gather.ScatterIsGather` | src/blind-transform.c:34-56 | the emitted frame equals the gather frame: every byte comes from the last source pixel whose flat destination is its slot, or is 0 |
| `Gather.SlotwiseEqual` | src/blind-transform.c:49-53 | every frame byte belongs to one pixel slot, so frames that agree slot by slot are equal |
| `TransformProperties.UncoveredStaysZero` | src/blind-transform.c:34 | a destination pixel that no read source pixel lands on is all zero bytes in the emitted frame |
| `TransformProperties.AllDroppedIsZero` | src/blind-transform.c:34-54 | if every source pixel's offset is rejected (for example a huge translation), the frame is entirely zero |
| `TransformProperties.LastWriteWins` | src/blind-transform.c:36-53 | if no later source pixel in row-major order lands on the same slot, an accepted pixel's bytes appear exactly at its output offset; earlier writers are overwritten |
| `TransformProperties.LastCoverIsLastWriter` | src/blind-transform.c:36-53 | the reference search finds exactly the pixel that no later pixel overwrites |
| `TransformProperties.DroppedPixelHasNoEffect` | src/blind-transform.c:49-54 | a source pixel whose offset is rejected does not affect the frame: changing its bytes changes no output byte |
| `TransformProperties.IdentityReproducesFrame` | src/blind-transform.c:36-56 | if every pixel maps to itself and all `height` rows are read, the frame equals the input rows laid end to end |
| `Matrix.CoefficientIndex` | src/blind-transform.c:27-32 | coefficient `k` sits at element `4k`, which is channel 0 of pixel `(k mod 3, k div 3)` of the 3x3 frame, in its first two rows, below 36 |
| `Matrix.Decode` | src/blind-transform.c:27-32 | coefficient `k` (a..f) is matrix element `CoefficientIndex(k)` |
| `Matrix.DecodeEncode` | src/blind-transform.c:27-32 | decoding a frame written with the documented layout gives back the six coefficients |
| `Matrix.DecodeIgnoresPadding` | src/blind-transform.c:27-32 | decoding reads only the six coefficient elements: padding does not matter |
| `Affine.Round` | src/blind-transform.c:45-46 | the result is the integer nearest its argument (within 1/2), a tie going away from zero (C `round`) |
| `Affine.NearestUnique` | src/blind-transform.c:45-46 | at most one integer is nearest a real in that sense, so the contract of `Round` determines its result |
| `Affine.AffineDest` | src/blind-transform.c:42-46 | source pixel `(x_in, y_in)` goes to the integers nearest `a*x + b*y + c + w/2` and `d*x + e*y + f + h/2`, where `x = x_in - w/2` and `y = y_in - h/2` |
| `Affine.IdentityDest` | src/blind-transform.c:42-46 | the identity coefficients send every source pixel to itself |
| `Affine.IdentityDestEverywhere` | src/blind-transform.c:42-46 | the same for all pixels at once |
| `Affine.TranslationDest` | src/blind-transform.c:42-46 | coefficients `(1,0,tx,0,1,ty)` move every pixel by `(tx, ty)`, possibly outside the frame |
| `Driver.FrameDest` | src/blind-transform.c:27-46 | under matrix frame `m`, source pixel `(x_in, y_in)` goes to the integers nearest the centred affine image with `a..f = m[0], m[4], m[8], m[12], m[16], m[20]` |
| `Driver.Run` | src/blind-transform.c:26-59 | exactly one frame per matrix frame, each exactly `frame_size` bytes |
| `Driver.FrameInput` | src/blind-transform.c:36-38 | the rows a frame gets are well sized and at most `height` |
| `Driver.RunFrame` | src/blind-transform.c:26-58 | output frame `n` is the transform, under matrix frame `n`, of input rows `n*height .. (n+1)*height`, cut at the end of the input |
| `Driver.FrameInputShift` | src/blind-transform.c:36-38 | consuming one frame's rows shifts the later frames' rows by one frame |
| `Driver.FrameInputFull` | src/blind-transform.c:36-38 | when enough rows remain, a frame reads exactly `height` rows |
| `Driver.OneFramePerMatrix` | src/blind-transform.c:26-58 | the output byte stream is `frames * frame_size` bytes long, one frame per matrix frame |
| `Driver.ShortInputFrame` | src/blind-transform.c:38 | with only `k < height` rows left, the frame is the transform of exactly those `k` rows |
| `Driver.ExhaustedInputGivesZeroFrames` | src/blind-transform.c:26-38 | once the input has run out, every later matrix frame still yields a full, all-zero frame |
| `Driver.IdentityMatrixReproducesInput` | src/blind-transform.c:26-58 | a matrix frame holding the identity coefficients, with a full frame of rows available, reproduces those rows byte for byte |
| `Driver.Process` | src/blind-transform.c:26-59 | the imperative loop over one reused buffer emits exactly the frames of `Run` |
| `Driver.RunStep` | src/blind-transform.c:26-58 | one matrix iteration emits the frame of the next `min(height, rows left)` rows, and the rest of the output starts after them |
| `Driver.ScatterFrame` | src/blind-transform.c:34-56 | one matrix iteration reads `min(height, rows left)` rows, and the buffer then holds their transformed frame |
| `Driver.ScatterRowInto` | src/blind-transform.c:40-55 | the in-place pixel loop computes `ScatterRow` |
| `Driver.CopyPixel` | src/blind-transform.c:53 | the in-place `memcpy` computes `Overwrite` |
| `Blind.ValidateMatrixStream` | src/blind-transform.c:79-82 | accepted iff width 3, height 3 and format "xyza"; a geometry error iff not 3x3; a format error iff 3x3 with another format |
| `Blind.BlindTransform` | src/blind-transform.c:72-87 | usage error iff the argument count is wrong; otherwise success iff the matrix stream is valid; on success the header is the input stream's and frame `n` is the transform of the `n`-th rows under matrix frame `n` |
| `Blind.TinyIdentity` | src/blind-transform.c:26-58 | on a 2x2 frame the identity matrix gives the frame back |
| `Blind.TinyShiftWrapsOntoNextRow` | src/blind-transform.c:49-51 | on a 2x2 one-byte frame, shifting by `(1,0)` gives `[0, p00, p10, p01]`: pixel (1,0) wraps onto row 1 and only (1,1) is dropped |
| `Blind.TinyShiftFrame` | src/blind-transform.c:36-56 | the scatter part of the same 2x2 example, for any map that shifts by one column |
| `Blind.TinyShiftPixel` | src/blind-transform.c:49-53 | in that example, pixel `(x, y)` is written at flat index `2y + x + 1` when that is below 4, and dropped otherwise |
| `Blind.TinyShiftRow0` | src/blind-transform.c:40-55 | in that example, row 0 lands on output slots 1 and 2 |
| `Blind.TinyShiftRow1` | src/blind-transform.c:40-55 | in that example, row 1's first pixel lands on slot 3 and its second is dropped |

Two consequences of the code are easy to miss:

- `break` (line 38) leaves only the row loop, not the matrix loop. Once the
  input has run out, every later matrix frame is still zeroed and emitted
  with no rows read (`Driver.ExhaustedInputGivesZeroFrames`).
- Line 51 checks the flat offset, not each coordinate. On a 2x2 frame, a
  shift by (1,0) moves input pixel (1,0) onto output pixel (0,1), and only
  output pixel (0,0) stays zero (`Blind.TinyShiftWrapsOntoNextRow`).

## Left out

- Scatter.PlacePixel: its own contract states the frame length and the untouched frame on a
  rejected offset; which bytes it writes is proved in `Gather.PlacePixelSlot`.
- Scatter.ScatterRow: its own contract states only the frame length; contents are proved in
  `Gather.ScatterRowSlot`.
- Scatter.ScatterRows: its own contract states only the frame length; contents are proved in
  `Gather.ScatterRowsSlot`.
- Scatter.TransformFrame: its own contract states only the frame length; contents are proved in
  `Gather.ScatterIsGather`.
- Driver.Run: its own contract states the frame count and sizes; frame contents are proved in
  `Driver.RunFrame` and `Driver.Process`.
- Floating point: the matrix elements are C `double`s. Here they are
  `real`s, and the map at lines 42-46 is computed exactly, then rounded by
  `Affine.Round`. Three things are not modelled: IEEE rounding error in
  `a*x + b*y + c + x_center`; NaN and infinite matrix elements, which a
  `real` cannot represent; and a rounded value outside `size_t`'s range,
  for which the conversion at lines 45-46 is undefined in C.
- Signed-to-unsigned conversion: the rounded coordinates are stored in
  `size_t` (lines 10, 45-46), which wraps or is undefined for negative
  values. The model keeps them as signed integers, as the comparison at
  line 51 intends. Overflow of the 64-bit offset product is not modelled.
- Stream I/O: `eopen_stream`, `eread_frame`, `eread_row`, `ewriteall`,
  `fprint_stream_head`, `efflush` and `close` come from `common.h`, which
  is not part of this model. The model takes the rows and matrix frames a
  stream would deliver as sequences of whole rows and frames, and returns
  the emitted frames. A short or failed write, which is fatal in the
  source, is not modelled.
- How the 8-byte doubles are decoded from the matrix stream's bytes is not
  modelled: a matrix frame is given as its 36 element values.
- Memory management (`echeck_dimensions`, `emalloc`, `free`): allocation
  failure is fatal in the source and is not modelled.
- Process exit: `usage` and `eprintf` become the `Blind.Error` cases of a
  `Result`.
