# hello_encode: test card generator and frame pump

This project models, in Dafny, the part of the Raspberry Pi `hello_encode`
demo that has behaviour of its own. That demo feeds an animated YUV test card
to the GPU's H.264 encoder and writes the encoded stream to a file. The model
covers three parts:

- **Geometry** (`geometry.dfy`). The size macros `WIDTH`, `PITCH`, `HEIGHT`,
  `HEIGHT16` and `SIZE` become functions of the width. The plane layout they
  define is a luma plane of PITCH x HEIGHT16 bytes, followed by a U plane and
  a V plane of (PITCH/2) x (HEIGHT16/2) bytes each.
- **Test card** (`test_card.dfy`). `generate_test_card` becomes the method
  `GenerateTestCard` over an `array<byte>`. Its nested loops mirror the C
  loops, with the `py`/`pu`/`pv` pointers kept as offsets. It is proved to
  leave the buffer equal to `TestCard(g, frame, old contents)`.
  - `TestCard` is defined byte by byte through `Locate`, the inverse of the
    map from a block's sample to its byte index.
  - Lemmas state which bytes are written, the value each one receives, and
    that every other byte keeps its contents.
- **Frame pump** (`encode_pump.dfy`). The do/while loop of
  `video_encode_test` becomes the method `EncodeLoop`. The encoder is an
  oracle: a finite sequence of `Poll`s. Each poll says whether the input
  buffer query returned a buffer and, if so, what the output buffer query
  returned.
  - The loop's observable state is `framenumber`, the input buffers
    submitted, the output file, the CODECCONFIG payloads dumped, and the
    output headers released with filled length 0. It is proved equal to
    `Run` of the polls consumed.
  - `RunMeaning` describes `Run` without the loop.

A byte is an `int` in 0..255. Values stored through `char` are reduced
modulo 256. The source file is `opt/vc/src/hello_pi/hello_encode/encode.c`.

## Model

| member | source | states |
|---|---|---|
| Geometry.Pitch | opt/vc/src/hello_pi/hello_encode/encode.c:41 | PITCH is a multiple of 32, at least WIDTH and less than WIDTH + 32 |
| Geometry.Height | opt/vc/src/hello_pi/hello_encode/encode.c:42 | HEIGHT is WIDTH * 9 / 16 rounded down: 16 * HEIGHT <= 9 * WIDTH < 16 * HEIGHT + 16 |
| Geometry.Height16 | opt/vc/src/hello_pi/hello_encode/encode.c:42-43 | HEIGHT16 is a multiple of 16, at least HEIGHT and less than HEIGHT + 16 |
| Geometry.LayoutOf | opt/vc/src/hello_pi/hello_encode/encode.c:40-43 | the macros give a layout whose rows fit in the pitch, whose picture rows fit in the slice height, and whose pitch and slice height halve exactly for chroma |
| Geometry.SizeAsWritten | opt/vc/src/hello_pi/hello_encode/encode.c:44 | SIZE as the macro computes it, from WIDTH; with an even HEIGHT16 the halving loses nothing: 2 * SIZE = 3 * WIDTH * HEIGHT16 |
| Geometry.UStart | opt/vc/src/hello_pi/hello_encode/encode.c:51 | the U plane starts after the luma plane, which is four times the size of a chroma plane |
| Geometry.VStart | opt/vc/src/hello_pi/hello_encode/encode.c:51-52 | the V plane starts one chroma plane, a quarter of the luma plane, after the U plane |
| Geometry.FrameEnd | opt/vc/src/hello_pi/hello_encode/encode.c:51-52 | the V plane is as long as the U plane, and the frame ends at 3/2 of the luma plane |
| Geometry.QuarterPlane | opt/vc/src/hello_pi/hello_encode/encode.c:51-52 | a p x h plane with even sides holds exactly four (p/2) x (h/2) planes |
| Geometry.FrameSize | opt/vc/src/hello_pi/hello_encode/encode.c:44 | the frame length PITCH * HEIGHT16 * 3 / 2 is exactly where the V plane ends |
| Geometry.PlanesFillFrame | opt/vc/src/hello_pi/hello_encode/encode.c:51-52 | one luma plane and two quarter-size chroma planes fill p * h * 3 / 2 bytes exactly |
| Geometry.Geometry640 | opt/vc/src/hello_pi/hello_encode/encode.c:40-44 | for WIDTH = 640: PITCH = 640, HEIGHT = 360, HEIGHT16 = 368, SIZE = 353280 |
| Geometry.SizesAgreeWhenAligned | opt/vc/src/hello_pi/hello_encode/encode.c:44 | when WIDTH is already a multiple of 32, SIZE equals the bytes the planes occupy |
| Geometry.SizeAsWrittenShort | opt/vc/src/hello_pi/hello_encode/encode.c:44 | when PITCH exceeds WIDTH, SIZE as written is smaller than the bytes the planes occupy |
| Geometry.SizeAsWrittenTooSmall | opt/vc/src/hello_pi/hello_encode/encode.c:44 | for width 16, SIZE is 384, yet the U plane starts at 512 and the frame ends at 768 |
| TestCards.Tile | opt/vc/src/hello_pi/hello_encode/encode.c:59 | the tile value z is below 16 |
| TestCards.LumaValue | opt/vc/src/hello_pi/hello_encode/encode.c:60 | the stored luma byte is 0x80 + 8z reduced modulo 256, and equals 0x80 + 8z for every tile value below 16 |
| TestCards.UValue | opt/vc/src/hello_pi/hello_encode/encode.c:61 | the stored U byte is 16z reduced modulo 256, and equals 16z for every tile value below 16 |
| TestCards.VValue | opt/vc/src/hello_pi/hello_encode/encode.c:62 | the stored V byte is 0x80 + 0x30z reduced modulo 256, and equals it without wrapping only for z < 3 |
| TestCards.InPicture | opt/vc/src/hello_pi/hello_encode/encode.c:54-58 | the blocks the loops visit are exactly those whose 2x2 luma pixels lie inside the WIDTH x HEIGHT picture |
| TestCards.SlotIndex | opt/vc/src/hello_pi/hello_encode/encode.c:51-57 | where py, pu and pv point: the luma samples of visited blocks lie before the U plane, U samples from the U plane offset on, V samples from the V plane offset on |
| TestCards.Locate | opt/vc/src/hello_pi/hello_encode/encode.c:51-62 | the block sample found at byte k is a visited block whose sample index is k, in the plane the offset lies in |
| TestCards.RowColumn | opt/vc/src/hello_pi/hello_encode/encode.c:55-57 | a row and column found for an offset lie inside the picture and rebuild the offset |
| TestCards.CardAt | opt/vc/src/hello_pi/hello_encode/encode.c:47-70 | a byte at or past the end of the V plane keeps its prior contents |
| TestCards.TestCard | opt/vc/src/hello_pi/hello_encode/encode.c:47-70 | the buffer after the call has the same length, and every byte past the V plane keeps its prior contents |
| TestCards.IndexLocate | opt/vc/src/hello_pi/hello_encode/encode.c:55-65 | every sample of every visited block lands below the frame size, and Locate maps it back: no two samples share a byte |
| TestCards.WrittenExactly | opt/vc/src/hello_pi/hello_encode/encode.c:54-67 | a byte is written if and only if it is the index of a visited block's sample |
| TestCards.CardAtSample | opt/vc/src/hello_pi/hello_encode/encode.c:60-62 | after the call, each luma, U and V byte of block (i, j) holds the value of that block's tile |
| TestCards.UntouchedOutsideBlocks | opt/vc/src/hello_pi/hello_encode/encode.c:54-58 | a byte that is no visited sample keeps its prior contents |
| TestCards.LumaPaddingUntouched | opt/vc/src/hello_pi/hello_encode/encode.c:54-58 | luma rows from 2 * (HEIGHT/2) and columns from 2 * (WIDTH/2) keep their prior contents |
| TestCards.ChromaPaddingUntouched | opt/vc/src/hello_pi/hello_encode/encode.c:54-58 | chroma rows from HEIGHT/2 and columns from WIDTH/2 keep their prior contents, in the U and in the V plane |
| TestCards.UPaddingLocate | opt/vc/src/hello_pi/hello_encode/encode.c:56 | a U-plane padding byte belongs to no block |
| TestCards.VPaddingLocate | opt/vc/src/hello_pi/hello_encode/encode.c:57 | a V-plane padding byte belongs to no block |
| TestCards.TailUntouched | opt/vc/src/hello_pi/hello_encode/encode.c:51-52 | bytes at or past the end of the V plane keep their prior contents |
| TestCards.WritesBelowSize640 | opt/vc/src/hello_pi/hello_encode/encode.c:44 | for WIDTH = 640 every index written lies below SIZE as the macro computes it |
| TestCards.SampleValues | opt/vc/src/hello_pi/hello_encode/encode.c:60-62 | luma is 0x80 + 8z and U is 16z without wrapping; V is 0x80 + 0x30z for z < 3 and wraps from z = 3 on, with 848 stored as 80 |
| TestCards.TileShift | opt/vc/src/hello_pi/hello_encode/encode.c:59 | the tile of block (i, j) at frame f + 1 is the tile of block (i + 1, j + 1) at frame f |
| TestCards.CardShift | opt/vc/src/hello_pi/hello_encode/encode.c:59-62 | the picture moves diagonally one block per frame, stated on the bytes written |
| TestCards.TestCardOverwrite | opt/vc/src/hello_pi/hello_encode/encode.c:54-67 | painting a frame over an earlier frame gives the same bytes as painting it over the original contents |
| TestCards.GenerateTestCard | opt/vc/src/hello_pi/hello_encode/encode.c:47-70 | reports the end of the V plane as the filled length, which is SIZE whenever PITCH equals WIDTH, and status 1 whatever the frame; leaves the buffer equal to the test card over its old contents |
| TestCards.PaintRow | opt/vc/src/hello_pi/hello_encode/encode.c:55-66 | one pass of the outer loop paints every block of row j and nothing else |
| TestCards.PaintBlock | opt/vc/src/hello_pi/hello_encode/encode.c:60-62 | one block writes its four luma bytes, its U byte and its V byte and nothing else |
| TestCards.PrefixStep | opt/vc/src/hello_pi/hello_encode/encode.c:58-65 | writing block (i, j) at the pointer offsets extends the painted prefix by that block |
| EncodePump.Payload | opt/vc/src/hello_pi/hello_encode/encode.c:241 | the bytes written for an output buffer are its first nFilledLen bytes |
| EncodePump.FramesTaken | opt/vc/src/hello_pi/hello_encode/encode.c:213-219 | framenumber is advanced once per pass that obtains an input buffer, so it never exceeds the passes made |
| EncodePump.ConfigPayloads | opt/vc/src/hello_pi/hello_encode/encode.c:234-238 | the hex dump covers at most one payload per retrieved buffer, and none when no buffer carries CODECCONFIG |
| EncodePump.OneMoreBuffer | opt/vc/src/hello_pi/hello_encode/encode.c:233-248 | one more retrieved buffer appends its payload to the file, its payload to the dumps when it is CODECCONFIG, and its header with length 0 to the released ones |
| EncodePump.Received | opt/vc/src/hello_pi/hello_encode/encode.c:226-233 | a pass receives an output buffer exactly when it got an input buffer and the output query returned a buffer |
| EncodePump.Retrieved | opt/vc/src/hello_pi/hello_encode/encode.c:212-233 | no more output buffers are retrieved than input buffers were obtained |
| EncodePump.Released | opt/vc/src/hello_pi/hello_encode/encode.c:248 | every retrieved header is released with nFilledLen 0 and its data and flags unchanged |
| EncodePump.Schedule | opt/vc/src/hello_pi/hello_encode/encode.c:219 | the k-th input buffer submitted carries frame k and the frame size |
| EncodePump.FileOf | opt/vc/src/hello_pi/hello_encode/encode.c:241 | the file after one more pass extends the file before it |
| EncodePump.Pass | opt/vc/src/hello_pi/hello_encode/encode.c:212-248 | one pass adds a frame and one submission exactly when it obtains an input buffer; submissions, file, dumps and released headers are only appended to; one header is released per output buffer received, and at most one payload is dumped |
| EncodePump.Run | opt/vc/src/hello_pi/hello_encode/encode.c:211-256 | framenumber equals the number of submissions; there are no more dumps than released headers and no more released headers than frames |
| EncodePump.Painted | opt/vc/src/hello_pi/hello_encode/encode.c:219 | however many frames are painted, the bytes past the frame keep their original contents |
| EncodePump.FinishedAtNumFrames | opt/vc/src/hello_pi/hello_encode/encode.c:211-256 | with NUMFRAMES = 300, a finished loop submitted frames 0 .. 299 in order, each with a filled length of 353280 |
| EncodePump.EncodeLoop | opt/vc/src/hello_pi/hello_encode/encode.c:211-256 | the loop's state is Run of the polls consumed, the input buffer holds the frames painted, it runs at least once, it finishes exactly when the frame count reaches the bound, and for a positive bound it then painted exactly that many frames |
| EncodePump.RunPass | opt/vc/src/hello_pi/hello_encode/encode.c:212-254 | one pass of the do/while body changes the loop state exactly as Pass says and paints one more frame into the input buffer when it obtains it |
| EncodePump.WriteOut | opt/vc/src/hello_pi/hello_encode/encode.c:233-249 | an output buffer's payload is appended to the file (and dumped when it is CODECCONFIG) and its header is released with nFilledLen 0 |
| EncodePump.PaintNextFrame | opt/vc/src/hello_pi/hello_encode/encode.c:219 | the input buffer gains the next frame and its filled length is the frame size, which is SIZE = 353280 |
| EncodePump.ExitFacts | opt/vc/src/hello_pi/hello_encode/encode.c:211-256 | the body runs at least once; the loop stalls only when the frames offered ran short; on exit with a positive bound exactly numFrames frames were painted |
| EncodePump.FirstReach | opt/vc/src/hello_pi/hello_encode/encode.c:219-256 | the first pass that brings the frame count to a positive bound leaves it exactly at the bound |
| EncodePump.RunMeaning | opt/vc/src/hello_pi/hello_encode/encode.c:211-256 | after any passes: the frames are the passes with input, numbered 0, 1, ... in order; the file is every retrieved payload in retrieval order; the dumps are the CODECCONFIG payloads; every retrieved header is released |
| EncodePump.RunFrames | opt/vc/src/hello_pi/hello_encode/encode.c:212-219 | framenumber counts the passes that got an input buffer, and the k-th submission carries frame k |
| EncodePump.RunOutputs | opt/vc/src/hello_pi/hello_encode/encode.c:226-248 | the file, the dumps and the released headers are those of the retrieved output buffers, in order |
| EncodePump.RunStep | opt/vc/src/hello_pi/hello_encode/encode.c:211-255 | one more poll is one more pass of the loop body |
| EncodePump.OnlyInputPaints | opt/vc/src/hello_pi/hello_encode/encode.c:212-219 | a pass without an input buffer paints no frame; a pass with one paints exactly one |
| EncodePump.OnePass | opt/vc/src/hello_pi/hello_encode/encode.c:212-248 | what one more pass adds to the frame count, the retrieved buffers, the file, the dumps and the released headers |
| EncodePump.FramesTakenAppend | opt/vc/src/hello_pi/hello_encode/encode.c:219 | the frame count of two runs of passes is the sum of their counts |
| EncodePump.RetrievedAppend | opt/vc/src/hello_pi/hello_encode/encode.c:226 | the output buffers retrieved over two runs of passes are those of the first, then those of the second |
| EncodePump.FileOfAppend | opt/vc/src/hello_pi/hello_encode/encode.c:241 | the output file is only ever appended to |
| EncodePump.PayloadWritten | opt/vc/src/hello_pi/hello_encode/encode.c:241 | the payload of the buffer received on pass n sits in the file right after everything written before that pass |
| EncodePump.ConfigStillWritten | opt/vc/src/hello_pi/hello_encode/encode.c:234-241 | a CODECCONFIG buffer is dumped and is still written to the file at its place |
| EncodePump.PaintedShowsLast | opt/vc/src/hello_pi/hello_encode/encode.c:219 | after several frames the input buffer holds only the last frame painted over its original contents |

## Left out

- The OpenMAX IL and ilclient calls are not modelled. This covers component creation, parameters, state changes, port enable and disable, `OMX_EmptyThisBuffer`, `OMX_FillThisBuffer` and teardown (lines 107-209 and 258-273). They are foreign calls into the GPU firmware. Only the buffers they return appear, as the oracle polls.
- `OMX_FillThisBuffer` is called on the output header before the loop reads it, and is also called when the header is NULL (line 228). The model reads the header as the query returned it and leaves this ordering out.
- The port configuration (lines 148-153) is not modelled, nor how the encoder reads it. The port declares `nSliceHeight` = HEIGHT (360) while the planes are laid out with HEIGHT16 (368).
- `printf` diagnostics, `print_def` and the text of the CODECCONFIG hex dump are left out. The dump is kept as the list of payloads it prints.
- A failed `fopen` and a short `fwrite` (lines 204-208 and 241-247) are left out. The file is modelled as receiving every payload in full.
- `main`, `bcm_host_init` and the early-exit error codes (-3, -4, `exit(1)`) are left out. They depend only on collaborators' results.
- GenerateTestCard: reports the end of the V plane (PITCH * HEIGHT16 * 3 / 2) as the filled length, where line 68 stores SIZE (WIDTH * HEIGHT16 * 3 / 2). The two agree whenever PITCH equals WIDTH, as for the compiled-in 640. For an unaligned width the code reports the shorter SIZE; see Findings.
- EncodeLoop: the C loop waits forever for buffers that never come; the model consumes a finite sequence of polls and reports `Stalled` when it runs out. Its properties about reaching NUMFRAMES hold when the polls offer enough input buffers.
- EncodeLoop: the frame bound is a parameter `numFrames`; the program passes `NUMFRAMES` = 300.
- EncodeLoop: the single input buffer of port 200 is one array, painted again on every pass that obtains it. The encoder's reading of the submitted bytes is not modelled.
- The C `int` and `OMX_U32` types are modelled as unbounded integers. No overflow is reachable for the compiled-in width, and the model does not model wrap-around for larger ones.
- The `&~31` and `&~15` masks are written as division and multiplication, which is equal for non-negative values.
- Descriptions of the demo say CODECCONFIG buffers are only printed. The code (lines 234-241) prints them and then writes them to the file as well, and the model follows the code. The do/while body runs once before the condition is evaluated, so the first pass always runs, even when the bound is 0; it paints a frame if it obtains an input buffer. The model follows that too.

## Findings

| source | as written | input that shows it | evidently intended | confidence | as-written member | corrected member |
|---|---|---|---|---|---|---|
| opt/vc/src/hello_pi/hello_encode/encode.c:44 | SIZE is `WIDTH * HEIGHT16 * 3 / 2`, while the plane offsets on lines 51-52 use PITCH | WIDTH = 16: PITCH is 32 and SIZE is 384, but the U plane starts at byte 512 and the V plane ends at byte 768 | the frame length is `PITCH * HEIGHT16 * 3 / 2`, the end of the V plane; it is the same for the compiled-in 640 | not executed | Geometry.SizeAsWrittenTooSmall | Geometry.FrameSize |
