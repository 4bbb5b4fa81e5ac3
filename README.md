# LanScreenStream in Dafny

A model of the sequential core of LanScreenStream, an Android app that
streams the device screen to browsers on the LAN as an MJPEG stream over HTTP.
The model covers four Java files:

- **MjpegHttpServer** (`mjpeg_http_server.dfy`)
  - the server's frame-rate clamp and the frame delay derived from it;
  - `serve` routing: the viewer page at `/`, the stream at `/stream.mjpg`, 404 for any other URI;
  - the byte layout of one multipart/x-mixed-replace part, with a parser proved to invert it;
  - the pull stream `MultipartMjpegStream`, as a class. Its fields are the current part and the cursor `idx`. It has `buildNextChunk` and both `read` methods.
- **ImageUtil** (`image_util.dfy`)
  - a `ByteBuffer` class with position and mark, following Java's rule that moving the position below the mark discards the mark;
  - `extractPlaneToArray`: a nested loop over arrays that copies a strided plane into a dense array;
  - the NV21 chroma loop, which writes V/U pairs;
  - the NV21 buffer size and the chroma dimensions;
  - the padded-width arithmetic and bitmap cropping of the RGBA path;
  - the format dispatch of `imageToJpeg`.
- **StreamService** (`stream_service.dfy`)
  - the target-size arithmetic;
  - the capacity-1 `ArrayBlockingQueue` handoff (poll, then offer, then take);
  - the A/B bitmap alternation guarded by `copying`;
  - the encode step that refreshes `latestJpeg`;
  - the fallback timer's safety counter;
  - the rescheduling of the capture runnable.

  The service is a class. Each callback is one method, run as one sequential step.
- **MainActivity** (`main_activity.dfy`)
  - `buildHttp`, with a parser proved to invert it;
  - `buildUiUrlText`;
  - `isProbablyEmulator`, as a function of the four build properties.

Shared definitions:

- `base.dfy`: Java `byte` (`int8`), the unsigned view `b & 0xFF`, truncating division, `int` narrowing, and small arithmetic lemmas.
- `text.dfy`: the decimal rendering of an `int` and its parser, `getBytes(US_ASCII)`, `String.contains` and ASCII lower-casing.

Several external calls become parameters of the operation that uses them:

- the frame supplier of the stream;
- the JPEG encoders: `YuvImage.compressToJpeg` and `Bitmap.compress`;
- the outcome of a `PixelCopy` request.

An encoder is a function that returns `None` when it throws. The frame supplier is an `array?<int8>` argument, where `null` means no frame yet.

Some behaviours of the code worth stating outright:

- The stream route is `/stream.mjpg`.
- `read()` answers -1 before the first frame, and `read(byte[],int,int)` answers 0.
- The RGBA path takes any format other than YUV_420_888. It has no plane-count check. It turns every exception into a `null` result.
- Each part opens with the line `--frame`, where the declared boundary is `--frame`. Under section 5.1.1 of RFC 2046 the delimiter would be `----frame`. The model keeps the bytes as written.

## Model

| member | source | states |
|---|---|---|
| Base.Unsigned | app/src/main/java/com/example/lanscreenstream/MjpegHttpServer.java:100 | `b & 0xFF` is the byte's value in [0, 255] |
| Base.JavaDiv | app/src/main/java/com/example/lanscreenstream/StreamService.java:108 | Java division by a positive divisor truncates toward zero: the floor quotient for a non-negative dividend, and the negated floor quotient of the negated dividend for a negative one |
| Base.ToInt32 | app/src/main/java/com/example/lanscreenstream/StreamService.java:108 | the `(int)` cast keeps a value already in `int` range and wraps any other one modulo 2^32 into that range |
| Text.IntToString | app/src/main/java/com/example/lanscreenstream/MainActivity.java:124 | the decimal text of the port is non-empty and holds no `:` or `/` |
| Text.ParseIntToString | app/src/main/java/com/example/lanscreenstream/MainActivity.java:124 | the decimal text of every `int` port parses back to that `int` |
| Text.Ascii | app/src/main/java/com/example/lanscreenstream/MjpegHttpServer.java:79 | `getBytes(US_ASCII)` yields one byte per character |
| Text.ContainsIff | app/src/main/java/com/example/lanscreenstream/MainActivity.java:133-135 | `contains` holds exactly when some slice of the string equals the pattern |
| Text.ContainsTransitive | app/src/main/java/com/example/lanscreenstream/MainActivity.java:135 | a string containing a pattern contains every piece of that pattern |
| Text.ToLowerAscii | app/src/main/java/com/example/lanscreenstream/MainActivity.java:128-131 | lower-casing keeps the length, maps each character on its own, and leaves no upper-case letter |
| MjpegHttpServer.NewServer | app/src/main/java/com/example/lanscreenstream/MjpegHttpServer.java:18-21 | the stored fps lies in [1, 30], equals the argument when the argument is in range, and is 1 or 30 otherwise |
| MjpegHttpServer.FrameDelayMs | app/src/main/java/com/example/lanscreenstream/MjpegHttpServer.java:64 | the delay is the floor of 1000 / max(1, fps); with a clamped fps it lies in [33, 1000] |
| MjpegHttpServer.FrameDelayOfServer | app/src/main/java/com/example/lanscreenstream/MjpegHttpServer.java:64 | every constructed server paces its parts 33 to 1000 ms apart |
| MjpegHttpServer.IndexHtmlReferencesStream | app/src/main/java/com/example/lanscreenstream/MjpegHttpServer.java:31-35 | the viewer page holds an image element whose source is `/stream.mjpg` |
| MjpegHttpServer.Serve | app/src/main/java/com/example/lanscreenstream/MjpegHttpServer.java:28-49 | `/` gives 200 HTML referencing the stream; `/stream.mjpg` gives 200 multipart with boundary `--frame`, the server's fps and the three no-cache/close headers; anything else gives 404 `text/plain` "Not found" |
| MjpegHttpServer.Part | app/src/main/java/com/example/lanscreenstream/MjpegHttpServer.java:74-84 | the bytes of one part: boundary line, `Content-Type` and `Content-Length` headers, blank line, image, CRLF; its properties are stated by `PartShape`, `PartStartsWithBoundaryLine` and `PartRoundTrip` |
| MjpegHttpServer.PartShape | app/src/main/java/com/example/lanscreenstream/MjpegHttpServer.java:75-84 | a part is its header length + n + 2 bytes long, the n image bytes sit right after the header, and CRLF ends it |
| MjpegHttpServer.PartStartsWithBoundaryLine | app/src/main/java/com/example/lanscreenstream/MjpegHttpServer.java:75-76 | the first line of every part is the boundary string followed by CRLF |
| MjpegHttpServer.PartRoundTrip | app/src/main/java/com/example/lanscreenstream/MjpegHttpServer.java:75-84 | parsing a built part gives back its image, so `Content-Length` is exactly the number of bytes between the blank line and the final CRLF |
| MjpegHttpServer.ArrayCopy | app/src/main/java/com/example/lanscreenstream/MjpegHttpServer.java:115 | `System.arraycopy` writes the source block into `dst[dstPos..dstPos+length)` and changes no other entry |
| MjpegHttpServer.Concat3 | app/src/main/java/com/example/lanscreenstream/MjpegHttpServer.java:81-84 | the three copies into a fresh array give head, then image, then tail |
| MjpegHttpServer.GetBytes | app/src/main/java/com/example/lanscreenstream/MjpegHttpServer.java:79-80 | a fresh array holding the ASCII bytes of the string |
| MjpegHttpServer.MultipartMjpegStream.constructor | app/src/main/java/com/example/lanscreenstream/MjpegHttpServer.java:61-66 | the delay is the floor of 1000 / max(1, fps); there is a first part exactly when the supplier had a frame |
| MjpegHttpServer.MultipartMjpegStream.BuildNextChunk | app/src/main/java/com/example/lanscreenstream/MjpegHttpServer.java:68-87 | with a frame, a fresh part of exactly the layout `Part` replaces the current one and `idx` becomes 0; without one, the part and `idx` are unchanged |
| MjpegHttpServer.MultipartMjpegStream.ReadInto | app/src/main/java/com/example/lanscreenstream/MjpegHttpServer.java:104-118 | returns 0 and leaves `b` alone before the first frame; otherwise it first replaces a used-up part when a frame is available; then it copies `n = min(len, remaining)` bytes from the cursor into `b[off..off+n)` and changes no other entry of `b`; `idx` advances by `n` within the part; the bytes handed out are the part's prefix up to `idx` |
| MjpegHttpServer.MultipartMjpegStream.CopyOut | app/src/main/java/com/example/lanscreenstream/MjpegHttpServer.java:114-117 | the copy at the end of `read(byte[],int,int)`: the next `min(len, remaining)` bytes, and the handed-out prefix grows by them |
| MjpegHttpServer.MultipartMjpegStream.Read | app/src/main/java/com/example/lanscreenstream/MjpegHttpServer.java:90-101 | -1 before the first frame; otherwise the next byte of the part as a value in [0, 255]; a used-up part is replaced first when a frame is available; the corrected version returns -1 without moving the cursor when no frame is available (see Findings) |
| MjpegHttpServer.ReadByteAsWritten | app/src/main/java/com/example/lanscreenstream/MjpegHttpServer.java:90-101 | `read()` exactly as written, on values: end of stream before the first frame, and every byte it yields lies in [0, 255] |
| MjpegHttpServer.ReadAfterUsedUpPartWithoutFrame | app/src/main/java/com/example/lanscreenstream/MjpegHttpServer.java:95-100 | as written, reading past a used-up part when the supplier has no frame indexes one past the part and leaves `idx` outside it |
| ImageUtil.ByteBuffer.Mark | app/src/main/java/com/example/lanscreenstream/ImageUtil.java:106 | the mark is set at the current position |
| ImageUtil.ByteBuffer.SetPosition | app/src/main/java/com/example/lanscreenstream/ImageUtil.java:114 | the position moves to `p`, and a mark beyond `p` is discarded |
| ImageUtil.ByteBuffer.GetInto | app/src/main/java/com/example/lanscreenstream/ImageUtil.java:115 | the next `len` bytes land in `dst[off..off+len)`, the rest of `dst` is unchanged, and the position advances by `len` |
| ImageUtil.ByteBuffer.Reset | app/src/main/java/com/example/lanscreenstream/ImageUtil.java:126 | it succeeds exactly when a mark is defined, in which case the position returns to the mark |
| ImageUtil.RowLength | app/src/main/java/com/example/lanscreenstream/ImageUtil.java:107 | the row read is the smaller of `rowStride` and `width*pixelStride` |
| ImageUtil.ExtractPlaneToArray | app/src/main/java/com/example/lanscreenstream/ImageUtil.java:103-127 | every cell (r, c) gets the plane byte at `r*rowStride + c*pixelStride`; no entry outside the first `width*height` output cells changes; the reset succeeds, restoring the position, exactly when the buffer started at position 0 or there are no rows |
| ImageUtil.ExtractRow | app/src/main/java/com/example/lanscreenstream/ImageUtil.java:113-123 | one row: positioning at `r*rowStride` discards a mark set later in the buffer, and the row's cells are copied |
| ImageUtil.CopyRow | app/src/main/java/com/example/lanscreenstream/ImageUtil.java:118-122 | the inner loop writes the samples `row[c*pixelStride]` into the row's cells and nothing else |
| ImageUtil.DenseCopyRange | app/src/main/java/com/example/lanscreenstream/ImageUtil.java:110-124 | with `outPixelStride == 1` only `out[outOffset..outOffset+width*height)` is written |
| ImageUtil.ChromaDim | app/src/main/java/com/example/lanscreenstream/ImageUtil.java:76-77 | `ceil(d / 2.0)` is the least r with `d <= 2r` |
| ImageUtil.Nv21Size | app/src/main/java/com/example/lanscreenstream/ImageUtil.java:61 | the buffer size `width*height*3/2` is the floor of three halves of the pixel count |
| ImageUtil.EvenDimensionsFill | app/src/main/java/com/example/lanscreenstream/ImageUtil.java:61-90 | for even dimensions the luma plane plus the V/U pairs fill the `width*height*3/2` buffer exactly |
| ImageUtil.OddDimensionsOverrun | app/src/main/java/com/example/lanscreenstream/ImageUtil.java:61-90 | for a non-empty frame with an odd dimension the V/U pairs need more than `width*height*3/2` bytes |
| ImageUtil.ChromaOverrunIff | app/src/main/java/com/example/lanscreenstream/ImageUtil.java:61-90 | the chroma loop overruns the buffer exactly when the frame is not empty and a dimension is odd |
| ImageUtil.InterleaveChroma | app/src/main/java/com/example/lanscreenstream/ImageUtil.java:79-90 | from `width*height` on, chroma cell (row, col) holds V at `row*vRowStride + col*vPixelStride`, then U at `row*uRowStride + col*uPixelStride`; each plane's strides are used independently, and nothing outside the pair region changes |
| ImageUtil.InterleaveRow | app/src/main/java/com/example/lanscreenstream/ImageUtil.java:84-89 | one chroma row: its V/U pairs are written and earlier pairs are kept |
| ImageUtil.Encoded | app/src/main/java/com/example/lanscreenstream/ImageUtil.java:93-96 | exactly the bytes the encoder produced, or an exception reaching the caller; never `null` |
| ImageUtil.Yuv420888ToJpeg | app/src/main/java/com/example/lanscreenstream/ImageUtil.java:56-97 | an exception when the luma plane's mark was discarded (its buffer did not start at position 0, so `reset` throws) or an odd dimension overruns the NV21 buffer; otherwise the encoder's outcome on a frame with the NV21 layout (luma by strides, then V/U pairs); it never yields `null`, and a buffer that started at position 0 ends there |
| ImageUtil.Nv21LayoutDetermined | app/src/main/java/com/example/lanscreenstream/ImageUtil.java:61-90 | for even dimensions the layout fixes every byte of the NV21 frame |
| ImageUtil.PaddedWidth | app/src/main/java/com/example/lanscreenstream/ImageUtil.java:44-46 | `width + rowPadding / pixelStride` in Java `int` arithmetic: the product, the difference, the truncating quotient and the sum each wrap to 32 bits; its properties are stated by `PaddedWidthOfStride` and `PaddedWidthWraps` |
| ImageUtil.PaddedWidthWraps | app/src/main/java/com/example/lanscreenstream/ImageUtil.java:44-46 | with `pixelStride * width == 2^32` the Java product is 0, so width, row stride and pixel stride all 65536 give a padded width of 65537 rather than 65536 |
| ImageUtil.PaddedWidthOfStride | app/src/main/java/com/example/lanscreenstream/ImageUtil.java:44-46 | for `width >= 0`, pixel stride at least 1 and an `int` row stride that holds `width` pixels, no step wraps: the padded width is `rowStride / pixelStride`, at least `width`, and exactly one row when the stride divides |
| ImageUtil.CreateBitmap | app/src/main/java/com/example/lanscreenstream/ImageUtil.java:45-49 | a bitmap exists exactly for a positive size, and it has that size |
| ImageUtil.CopyPixelsFromBuffer | app/src/main/java/com/example/lanscreenstream/ImageUtil.java:50 | it succeeds exactly when the buffer holds the whole bitmap; row y is then the y-th run of `4*width` bytes |
| ImageUtil.CropBitmap | app/src/main/java/com/example/lanscreenstream/ImageUtil.java:51 | it succeeds exactly for a positive size within the source; row y is then the first `4*width` bytes of the source row |
| ImageUtil.RgbaImageToBitmap | app/src/main/java/com/example/lanscreenstream/ImageUtil.java:34-54 | `rgbaImageToBitmap`: padded bitmap, copy, crop, with `null` for every failure; its contract is stated by `RgbaImageToBitmapSpec` and `RgbaRowsFollowStride` |
| ImageUtil.RgbaImageToBitmapSpec | app/src/main/java/com/example/lanscreenstream/ImageUtil.java:34-54 | success exactly when the pixel stride is non-zero, the padded width holds the width, the frame is not empty and the buffer holds the padded image; each row is then the cropped padded row |
| ImageUtil.RgbaRowsFollowStride | app/src/main/java/com/example/lanscreenstream/ImageUtil.java:44-51 | for packed RGBA with an `int` row stride that holds the row and is a multiple of 4, row y of the bitmap is the plane's bytes at `y*rowStride`, so the padding is skipped exactly |
| ImageUtil.RgbaToJpeg | app/src/main/java/com/example/lanscreenstream/ImageUtil.java:22-31 | never an exception; bytes exactly when the conversion and the encoder both succeed, and then the encoder's bytes for the converted bitmap; `null` otherwise |
| ImageUtil.ImageToJpeg | app/src/main/java/com/example/lanscreenstream/ImageUtil.java:16-32 | YUV_420_888 takes the YUV path with its outcomes; every other format takes the RGBA path, on the bytes remaining in plane 0, or gives `null` when there is no plane |
| StreamService.TargetWidth | app/src/main/java/com/example/lanscreenstream/StreamService.java:107 | the target width is at most 720 and at most the display width, and is one of the two |
| StreamService.TargetHeight | app/src/main/java/com/example/lanscreenstream/StreamService.java:108 | the target height is at least 1 |
| StreamService.TargetSizeOfNarrowDisplay | app/src/main/java/com/example/lanscreenstream/StreamService.java:107-108 | a display at most 720 wide keeps its width and height |
| StreamService.TargetHeightKeepsAspect | app/src/main/java/com/example/lanscreenstream/StreamService.java:108 | the height is the aspect-preserving height rounded down (at least 1), and never exceeds the display height |
| StreamService.RunsAfterTickAsWritten | app/src/main/java/com/example/lanscreenstream/StreamService.java:157-185 | as written: a run with a valid surface reposts itself once |
| StreamService.InvalidSurfaceTickPostsTwice | app/src/main/java/com/example/lanscreenstream/StreamService.java:158-160 | as written: one run with an invalid surface leaves two runs pending |
| StreamService.InvalidTicksGrowRuns | app/src/main/java/com/example/lanscreenstream/StreamService.java:155-187 | as written: after k invalid-surface runs, k more runs are pending than before |
| StreamService.BlockingQueue.constructor | app/src/main/java/com/example/lanscreenstream/StreamService.java:136 | an empty queue of the given capacity |
| StreamService.BlockingQueue.Poll | app/src/main/java/com/example/lanscreenstream/StreamService.java:170 | removes and returns the head, or `null` when the queue is empty |
| StreamService.BlockingQueue.Offer | app/src/main/java/com/example/lanscreenstream/StreamService.java:171 | appends exactly when there is room and reports whether it did |
| StreamService.BlockingQueue.Take | app/src/main/java/com/example/lanscreenstream/StreamService.java:193 | returns the head and removes it |
| StreamService.SlotFor | app/src/main/java/com/example/lanscreenstream/StreamService.java:164 | the copy goes to `bmpA` exactly when `useA` |
| StreamService.FallbackStep | app/src/main/java/com/example/lanscreenstream/StreamService.java:226-237 | a tick without a non-empty frame changes nothing; a tick with one increments the counter and cancels the timer exactly when the count reaches 6 |
| StreamService.FallbackCancelsOnSixthFrame | app/src/main/java/com/example/lanscreenstream/StreamService.java:222-236 | over any run of ticks, the timer is running with the number of frame ticks so far while fewer than 6 have been seen, and is cancelled from the sixth on |
| StreamService.StreamService.constructor | app/src/main/java/com/example/lanscreenstream/StreamService.java:104-145 | the target size of the display, an empty capacity-1 queue, `useA` set, no copy in flight, no JPEG, no timer, one scheduled run |
| StreamService.StreamService.CaptureTick | app/src/main/java/com/example/lanscreenstream/StreamService.java:155-187 | no copy starts while the surface is invalid or a copy is in flight; a started copy targets `bmpA` exactly when `useA` was set, flips `useA`, uses the other bitmap than the last started copy, and leaves `copying` set unless the request threw; nothing else changes; the corrected version takes the executing run off and posts the next one once on every path, so the number of scheduled runs is unchanged (see Findings) |
| StreamService.StreamService.CopyFinished | app/src/main/java/com/example/lanscreenstream/StreamService.java:166-178 | `copying` is cleared whatever the result; on success the target bitmap holds the frame, the other is untouched, and the queue holds exactly that bitmap; on failure nothing else changes |
| StreamService.StreamService.EncodeStep | app/src/main/java/com/example/lanscreenstream/StreamService.java:192-201 | takes the queued bitmap and leaves the queue empty; a successful encode of its pixels becomes `latestJpeg`, and a failed one leaves `latestJpeg` as it was |
| StreamService.StreamService.GetLatestJpeg | app/src/main/java/com/example/lanscreenstream/StreamService.java:288 | the current latest JPEG (`null` before the first one) |
| StreamService.StreamService.StartTestFramesFallback | app/src/main/java/com/example/lanscreenstream/StreamService.java:220-225 | starts a timer with counter 0, or does nothing when one exists |
| StreamService.StreamService.FallbackTick | app/src/main/java/com/example/lanscreenstream/StreamService.java:226-237 | the timer makes one `FallbackStep` on the current `latestJpeg`; nothing else changes |
| StreamService.CaptureThenEncode | app/src/main/java/com/example/lanscreenstream/StreamService.java:162-200 | a capture, its successful callback and an encode step hand the encoder exactly the frame copied into the slot the capture picked, and its JPEG (if any) becomes the latest |
| MainActivity.BuildHttp | app/src/main/java/com/example/lanscreenstream/MainActivity.java:122-125 | "N/A" for a `null` or empty address; otherwise a URL that starts with `http://` and ends with `/` |
| MainActivity.ParseBuildHttp | app/src/main/java/com/example/lanscreenstream/MainActivity.java:124 | the URL for a non-empty address names that address and that port: parsing it gives both back |
| MainActivity.NoAddressIsNotAUrl | app/src/main/java/com/example/lanscreenstream/MainActivity.java:123 | the placeholder for a missing address parses as no URL |
| MainActivity.BuildUiUrlText | app/src/main/java/com/example/lanscreenstream/MainActivity.java:110-120 | the text always starts with "Device URL: ", followed by the URL for a non-empty address or "No LAN IP found" otherwise |
| MainActivity.UiUrlTextNamesAddress | app/src/main/java/com/example/lanscreenstream/MainActivity.java:110-120 | after the label, the text parses to the address and port exactly when there is an address |
| MainActivity.Lowered | app/src/main/java/com/example/lanscreenstream/MainActivity.java:128-131 | a `null` property becomes "", any other is lower-cased |
| MainActivity.IsProbablyEmulator | app/src/main/java/com/example/lanscreenstream/MainActivity.java:127-136 | `isProbablyEmulator` on the lower-cased properties; its meaning is stated by `EmulatorIffSomeMarker`, `GoogleSdkMarkerRedundant`, `BlankBuildIsNotEmulator` and `EmulatorIgnoresCase` |
| MainActivity.EmulatorIffSomeMarker | app/src/main/java/com/example/lanscreenstream/MainActivity.java:127-136 | the test holds exactly when one of the eight (property, marker) pairs occurs in the lower-cased property |
| MainActivity.GoogleSdkMarkerRedundant | app/src/main/java/com/example/lanscreenstream/MainActivity.java:135 | the `google_sdk` test never changes the verdict: the first seven markers decide alone |
| MainActivity.BlankBuildIsNotEmulator | app/src/main/java/com/example/lanscreenstream/MainActivity.java:128-135 | `null` or empty properties never look like an emulator |
| MainActivity.EmulatorIgnoresCase | app/src/main/java/com/example/lanscreenstream/MainActivity.java:128-135 | lower-casing the properties first does not change the verdict |

## Left out

- Timing is not modelled: the `Thread.sleep` pauses of the stream and `postDelayed`/`scheduleAtFixedRate` of the service. A delay is only a computed value.
- Concurrency is not modelled: `volatile`, `AtomicReference`, the capture handler thread, the encoder executor, the timer thread, and interleavings between them. Each callback is one sequential step. So the model does not capture a bitmap being overwritten by a new copy while it is queued or being encoded.
- `encodeLoop`'s `while` loop, the blocking of `take` and interruption: one iteration on a non-empty queue is `EncodeStep`.
- `StreamService.StreamService.CopyFinished`: assumes `PixelCopy` writes the bitmap only on success, and then with the whole frame.
- NanoHTTPD is not modelled: sockets, chunked transfer encoding, and the `IHTTPSession` beyond its URI.
- The JPEG encoders are not modelled. They are parameters that may fail.
- The internals of `Bitmap.createBitmap` and `copyPixelsFromBuffer` are modelled only as far as sizes and row contents go. `ImageUtil.CopyPixelsFromBuffer` does not model the advance of the buffer's position, because the buffer is not used again afterwards.
- `ImageUtil.Yuv420888ToJpeg` requires the platform's frame geometry: three planes; for the luma plane a pixel stride of at least 1 and `(width-1)*pixelStride < rowStride` (otherwise `row[c*pixelStride]` would be out of bounds) and room for every row read; for the two chroma planes non-negative strides and room for the last sample. Android's YUV_420_888 planes guarantee these. With that a read cannot go out of range. `ImageUtil.ExtractPlaneToArray` requires its output cells to fit the array, which the NV21 buffer guarantees for the luma plane.
- `ImageUtil.Yuv420888ToJpeg`: `width * height * 3 / 2` is computed on unbounded integers; 32-bit overflow of that product for huge frames is not modelled.
- `ImageUtil.RowLength`: `width * pixelStride` (ImageUtil.java:107) is computed on unbounded integers, so `ImageUtil.ExtractPlaneToArray` does not model a 32-bit overflow of that product; for the frame sizes an Android image delivers it stays in range.
- The MediaProjection, VirtualDisplay, SurfaceTexture and PixelCopy setup, `startHttpServer`, `onStartCommand` and `onDestroy` are not modelled. They are platform I/O and resource release.
- `MainActivity.Lowered`: the default-locale `toLowerCase` is replaced by the locale-independent mapping of `A`-`Z` to `a`-`z`. It differs for `I` in Turkish and Azeri locales, and for non-ASCII characters.
- `MainActivity.IsProbablyEmulator` reads the `Build` constants as parameters. The permission and activity-result flow and the TextView updates are not modelled.
- `NetworkUtils.java` (interface enumeration) and `NotificationHelper.java` (notification UI) are not part of this model.

## Findings

| source | as written | input that shows it | evidently intended | confidence | as-written member | corrected member |
|---|---|---|---|---|---|---|
| app/src/main/java/com/example/lanscreenstream/MjpegHttpServer.java:95-100 | when the current part is used up and the supplier has no frame, `buildNextChunk` keeps the old part, so `currentChunk == null` is false and `currentChunk[idx++]` reads one past its end (ArrayIndexOutOfBoundsException, with `idx` left past the part) | a part read to its last byte, then `read()` while the frame supplier returns `null`; in this app the only supplier is `StreamService.getLatestJpeg`, which never returns `null` once a frame exists, so the defect is in `MultipartMjpegStream` as a component and is reached only by a supplier that returns `null` after a frame | return -1 without moving the cursor, as the `null` check on line 98 suggests | medium (unreachable with this app's frame source); not executed | MjpegHttpServer.ReadAfterUsedUpPartWithoutFrame | MjpegHttpServer.MultipartMjpegStream.Read |
| app/src/main/java/com/example/lanscreenstream/StreamService.java:158-160 | with no valid surface the runnable posts itself and returns, and the `finally` block on line 184 posts it again, so every such run adds one pending run | one run of the capture runnable while `surface` is `null` or invalid: two runs pending afterwards. The surface is invalid in this way after `onDestroy` sets `surface = null` (StreamService.java:258) and before `captureThread.quitSafely()` (line 271) drops the pending delayed posts, so the extra runs are short-lived in this app | each run reposts itself exactly once | high; not executed | StreamService.InvalidSurfaceTickPostsTwice | StreamService.StreamService.CaptureTick |
