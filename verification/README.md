# Wigglegram camera: the integer core, modelled in Dafny

The system is a portable stereoscopic "wigglegram" camera. A Raspberry Pi
drives four serial cameras (STM32 boards with an OV-series sensor) and turns
their frames into a bouncing GIF. A small LED strip and a fan are attached.
Most of the code is I/O, threads and image-library calls. Under that I/O sits
a layer of integer logic, and that layer is what this project models:

- `streamUSB.py`:
  - the sensor register table, an insertion-ordered dict literal with repeated keys;
  - the exposure patch `set_exposure_config`;
  - the `W rrrr vv` / `R` / `S` serial command stream;
  - each camera worker's sequence of port actions, per mode;
  - the RGB565 decoder;
  - the grayscale byte slice;
  - the frame-size acceptance check.
- `livePreview.c`:
  - the fixed-point YUV 4:2:2 to 24-bit decoder;
  - the 54-byte BMP header;
  - `read_exact` with its retry counter;
  - the ACK/STOP handshake of the preview loop.
- `wiggler.py`:
  - reference-frame choice and window fitting in `adjustZoom`;
  - the integer crop stage of `crop_image_sides`;
  - the boomerang frame order of `convertToGif`;
  - coordinate remapping;
  - `.gif` to `_1.jpg/.jpeg/.png` path resolution over an abstract "exists on disk" predicate.
- `ledControl.py`: `wheel`, `fade_all`, `clear`, and the per-frame rules of the theater chase, the comet and the white ramp.
- `fan_control.py`: level-to-duty selection and the exit codes of `main`. The pigpio connection is a boolean parameter.

The modules follow the program's structure:

| file | module | models |
|---|---|---|
| common.dfy | Common | `Option`, RGB triples, clamping, a div/mod uniqueness lemma |
| registers.dfy | Registers | ordered-dict table, `REGISTRY_UPDATES`, `set_exposure_config` |
| wire.dfy | Wire | hex formatting, write/reset/capture lines, the camera-side parser |
| pixel_decode.dfy | PixelDecode | RGB565 decoding, grayscale slicing, fixed-point YUV decoding |
| bmp_header.dfy | BmpHeader | little-endian stores and the BMP header |
| camera_worker.dfy | CameraWorker | `camera_worker` traces and `run_camera_batch` |
| live_preview.dfy | LivePreview | `read_exact`, the handshake, the BMP file written per frame |
| wiggler_geometry.dfy | WigglerGeometry | `adjustZoom`, crop clamping, boomerang, remapping |
| wiggler_paths.dfy | WigglerPaths | `_resolve_existing`, `_resolve_gif_or_first_jpg` |
| led_control.dfy | LedControl | LED helpers and effect frames |
| fan_control.dfy | FanControl | `_set_pigpio_duty` and `main` |

Modelling choices:

- **Python dict.** A Python dict is a sequence of (key, value) pairs. `d[k] = v` updates the value in place when the key is present and appends otherwise. A dict literal is these assignments applied in order. So a repeated key keeps its first position and takes its last value.
- **Serial port.** A port is a description of how it behaves:
  - whether it opens;
  - what a RESET finds waiting;
  - which bytes arrive before the timeout.

  A worker yields the list of port actions it performs and an outcome.
- **`read()` calls.** `read_exact` is driven by a script, the sequence of values the successive `read` calls return. The preview loop is driven by one entry per pass: a short frame, or a full frame with the live flag set or cleared.
- **Files on disk.** Existence of files is a predicate `onDisk: string -> bool`. `IMAGES_DIR` and `RAWS_DIR` are parameters.
- **C `>> 10` on negative values** is modelled as floor division by 1024. This is arithmetic shift, as GCC does it on the target.
- **`set_exposure_config` float arithmetic.** `int(5 + 4995 * ((s - 1) / 9.0))` equals `5 + 555 * (s - 1)` at all ten integer scales, and `ActualLines` uses that exact form.
- **Whitespace of `str.strip()` and `int()`.** `str.strip()` removes every character `str.isspace` accepts, including the separators U+001C..U+001F. `int()` first maps non-ASCII whitespace to a space and then skips only space, \t, \n, \v, \f and \r. `FanControl.Blanks` selects between the two sets.
- **Digit limit of `int()`.** `int()` refuses a decimal string of more than 4300 digits (`sys.get_int_max_str_digits()`, the default since Python 3.11); underscores do not count. `ParseSigned` takes the limit as a parameter and `ParsePyInt` passes 4300.
- **White ramp.** `0.7 / 0.02` is `35.0`, so the ramp has 35 steps. `int(b * k / 35)` equals `b * k // 35` on the byte range.

Where the comments and the code disagree, the model follows the code:

- **Byte order of the colour decoder.** The comment on `yvyu_to_rgb_int_math` says YVYU. The code reads each group as `[Y0, U, Y1, V]`, and `PixelDecode.GroupAt` does the same.
- **Output channel order.** The three output bytes of a pixel are green, red, blue (`livePreview.c:149-158`). A BMP viewer reads them as blue, green, red. `PixelBytes` keeps the order the code writes.
- **Grayscale bytes.** With `PACKING = "UYVY"` the grayscale path keeps the odd-indexed bytes, while the colour decoders treat the even-indexed bytes as luma. Both are modelled as written. `GrayscaleFrame` states that the grayscale image is made of the bytes the colour decoder uses as U and V.
- **Comet on a one-LED strip.** On a strip of one LED, `effect_comet` moves the head to index 1 after the first frame and then indexes past the end. `CometSingleLedFails` exhibits this; the model returns `None` where Python raises `IndexError`.

## Model

| member | source | states |
|---|---|---|
| Registers.IndexOf | software/background_processes/streamUSB.py:164-166 | finds a key's entry in the dict, if present: the first entry carrying it, none before it |
| Registers.Put | software/background_processes/streamUSB.py:164-166 | `d[k] = v`. A present key is updated in place, keeping order and length; an absent key is appended. No other entry changes, the key set gains exactly `k`, and afterwards `k` looks up to `v` |
| Registers.FromPairs | software/background_processes/streamUSB.py:34-94 | a dict literal with repeated keys yields a table without duplicate keys |
| Registers.FromPairsKeys | software/background_processes/streamUSB.py:34-94 | the literal's keys are exactly the keys listed |
| Registers.FromPairsLastValue | software/background_processes/streamUSB.py:34-94 | every key takes the value of its last occurrence in the literal |
| Registers.FromPairsFirstOrder | software/background_processes/streamUSB.py:34-94 | keys are ordered by their first occurrence in the literal |
| Registers.ZipKeys | software/background_processes/streamUSB.py:34-94 | a table built from listed addresses has exactly those addresses as keys |
| Registers.ZipLookup | software/background_processes/streamUSB.py:34-94 | an address's value is the value at its last listed position |
| Registers.ExposureRegistersAbsent | software/background_processes/streamUSB.py:34-94 | the base table has none of 0x3500, 0x3501, 0x3502 |
| Registers.Register5001 | software/background_processes/streamUSB.py:39-89 | 0x5001, listed three times, stays at its first position (fourth entry) and ends up 0xA3 |
| Registers.Register501F | software/background_processes/streamUSB.py:68-85 | 0x501F and 0x501f are one key, with value 0x00 |
| Registers.ClampScale | software/background_processes/streamUSB.py:135-137 | a scale outside 1..10 becomes the nearest bound; a scale inside is kept |
| Registers.ActualLines | software/background_processes/streamUSB.py:140-147 | lines lie in 5..5000, are 5 at scale 1 and 5000 at scale 10, and are linear in the scale with slope 4995/9 |
| Registers.ActualLinesIncreasing | software/background_processes/streamUSB.py:140-147 | a larger scale gives strictly more lines |
| Registers.ExposureRegisters | software/background_processes/streamUSB.py:150-161 | three bytes, the high one at most 1, whose base-256 value is 16 times the line count |
| Registers.SetExposureConfig | software/background_processes/streamUSB.py:121-169 | only the three exposure keys change, every other entry is kept, and when they are absent they are appended in order 0x3500, 0x3501, 0x3502 |
| Registers.PutKeepsOtherLookup | software/background_processes/streamUSB.py:164-166 | an assignment does not change any other key's value |
| Registers.ExposureLookups | software/background_processes/streamUSB.py:164-166 | after the patch the three keys hold the computed bytes, and keys stay distinct |
| Registers.ExposureClampedScale | software/background_processes/streamUSB.py:135-137 | an out-of-range scale gives exactly the patch of the nearest bound |
| Registers.ExposurePatchAppends | software/background_processes/streamUSB.py:164-166 | patching the base table appends the three exposure registers after all base entries |
| Wire.HexValue | software/background_processes/streamUSB.py:345 | reading an upper-case hex digit inverts writing it |
| Wire.HexPad | software/background_processes/streamUSB.py:345 | `{n:0wX}`: upper-case hex digits, at least `w` of them, exactly `w` when `n` fits, reading back as `n` |
| Wire.HexPadOfParse | software/background_processes/streamUSB.py:345 | formatting a parsed digit string at its own width returns the string |
| Wire.FormatHex | software/background_processes/streamUSB.py:345 | at least `w` characters; a non-negative number reads back from its hex digits, a negative one is a `-` and the digits of its magnitude |
| Wire.HexPadBound | software/background_processes/streamUSB.py:345 | `w` hex digits denote a number below 16^w |
| Wire.WriteCommandRoundTrip | software/background_processes/streamUSB.py:345-348 | a write line for an in-range register is ten characters and parses back to (address, value) |
| Wire.ParseWriteCommandSound | software/background_processes/streamUSB.py:345-348 | every line the parser accepts is in range and is the line the encoder writes for it |
| Wire.UpdateStreamLength | software/background_processes/streamUSB.py:345-353 | UPDATE sends ten characters per register plus two for `R\n` |
| Wire.UpdateStreamRoundTrip | software/background_processes/streamUSB.py:345-353 | the camera-side parser recovers the whole table, in order, from the UPDATE stream |
| Wire.ParseUpdateStreamSound | software/background_processes/streamUSB.py:345-353 | every stream the parser accepts is the UPDATE stream of the table it yields |
| CameraWorker.WriteActions | software/background_processes/streamUSB.py:345-348 | one write per register, in table order |
| CameraWorker.ReadUpTo | software/background_processes/streamUSB.py:377 | `ser.read(n)` returns the first `min(n, arrived)` bytes that arrived |
| CameraWorker.WrittenCommands | software/background_processes/streamUSB.py:345-348 | the text of the per-register writes is the concatenated write lines |
| CameraWorker.UpdateTrace | software/background_processes/streamUSB.py:328-357 | UPDATE flushes input, writes one line per register of the local table, then `R\n`; the local table is the base table, patched when an exposure is given |
| CameraWorker.LocalRegistersInRange | software/background_processes/streamUSB.py:34-94 | every register UPDATE can send has a 16-bit address and an 8-bit value |
| CameraWorker.UpdateRoundTrip | software/background_processes/streamUSB.py:328-357 | what UPDATE writes parses back to exactly the local register table |
| CameraWorker.ResetAndCaptureTraces | software/background_processes/streamUSB.py:360-377 | RESET writes `R\n` and reads what is waiting; any other mode but UPDATE writes `S\n`, flushes and reads one frame |
| CameraWorker.CaptureAcceptance | software/background_processes/streamUSB.py:377-390 | a frame is saved exactly when FRAME_SIZE bytes arrived, otherwise a timeout with the count; a grayscale save has WIDTH·HEIGHT bytes and a colour save the raw frame |
| CameraWorker.SaveTargets | software/background_processes/streamUSB.py:281-290 | live overrides batch, batch overrides single capture |
| CameraWorker.PortErrorSilent | software/background_processes/streamUSB.py:392-394 | a port that does not open ends the worker with no traffic |
| CameraWorker.RunBatch | software/background_processes/streamUSB.py:414-430 | one run per camera, and the i-th run is that camera's worker run with the shared mode and options |
| CameraWorker.BatchIsolation | software/background_processes/streamUSB.py:399-430 | a camera's run does not depend on the other cameras |
| PixelDecode.Replicate5 | software/background_processes/streamUSB.py:248-250 | 5-bit replication is a byte, keeps the source bits on top, and maps 0 to 0 and 31 to 255 |
| PixelDecode.Replicate6 | software/background_processes/streamUSB.py:249 | 6-bit replication is a byte, keeps the source bits on top, and maps 0 to 0 and 63 to 255 |
| PixelDecode.ReplicateMatchesBits | software/background_processes/streamUSB.py:248-250 | the shift-and-or expressions on 16-bit words equal the model's replication |
| PixelDecode.ReplicateIncreasing | software/background_processes/streamUSB.py:248-250 | replication is strictly increasing |
| PixelDecode.UnpackPack | software/background_processes/streamUSB.py:241-243 | the 5/6/5 mask-and-shift split inverts packing |
| PixelDecode.PixelRoundTrip | software/background_processes/streamUSB.py:236-243 | reading the word big-endian from its two bytes and splitting it gives back the pixel |
| PixelDecode.Pack565 | software/background_processes/streamUSB.py:236-243 | a 5/6/5 pixel packs into one 16-bit word (its inverse is stated by `UnpackPack`) |
| PixelDecode.Unpack565 | software/background_processes/streamUSB.py:241-243 | masking and shifting a 16-bit word gives in-range 5/6/5 fields, and the fields cover all 16 bits: packing them again gives back the word |
| PixelDecode.Expand | software/background_processes/streamUSB.py:248-256 | the expanded pixel is an RGB888 colour whose top 5/6/5 bits are the source fields |
| PixelDecode.DecodeRgb565 | software/background_processes/streamUSB.py:227-259 | decoding succeeds exactly for a buffer of two bytes per pixel, giving one colour per pixel |
| PixelDecode.Words565 | software/background_processes/streamUSB.py:236-243 | a buffer of whole pixels carries one in-range pixel per byte pair, whose packed word is that pair read big-endian |
| PixelDecode.EveryBufferEncoded | software/background_processes/streamUSB.py:236-243 | every buffer of whole pixels is the encoding of the pixels it carries, so the encoder reaches all input |
| PixelDecode.DecodeAnyBuffer | software/background_processes/streamUSB.py:236-256 | for any buffer of the right size, each decoded colour is the expansion of its byte pair's pixel, and its top 5/6/5 bits pack back into the received word |
| PixelDecode.DecodeEncode565 | software/background_processes/streamUSB.py:227-259 | decoding an encoded image gives each pixel's replicated colour, whose top bits are the source fields |
| PixelDecode.SlicesPartition | software/background_processes/streamUSB.py:268-275 | the even and odd slices partition the buffer |
| PixelDecode.LumaBytes | software/background_processes/streamUSB.py:268-275 | the grayscale slice exists exactly for the two known packings on a long enough buffer, and holds bytes |
| PixelDecode.GrayscaleFrame | software/background_processes/streamUSB.py:268-275 | under UYVY packing a full frame yields WIDTH·HEIGHT bytes, the two chroma positions of each group |
| PixelDecode.Clip | software/background_processes/livePreview.c:45-62 | the result is a byte, equal to the input on bytes and saturated outside |
| PixelDecode.Shr10 | software/background_processes/livePreview.c:133-144 | `>> 10` is floor division by 1024 |
| PixelDecode.YvyuToRgbIntMath | software/background_processes/livePreview.c:106-160 | a full frame yields WIDTH·HEIGHT·3 bytes, each the clipped fixed-point value of its group |
| PixelDecode.PixelBytes | software/background_processes/livePreview.c:128-158 | each pixel yields three bytes (their values are bounded by `PixelBytesApproximateJfif` and `ZeroChromaIsGray`) |
| PixelDecode.OutBytesOfGroup | software/background_processes/livePreview.c:119-158 | output bytes 6g..6g+5 come from input group g, 4 bytes in and 6 out |
| PixelDecode.ZeroChromaIsGray | software/background_processes/livePreview.c:128-144 | zero chroma (u = v = 128) gives three equal bytes, the luma |
| PixelDecode.PixelBytesApproximateJfif | software/background_processes/livePreview.c:133-144 | the fixed-point bytes are within 2.1 (green) and 1.1 (red, blue) of the exact clipped JFIF full-range values |
| BmpHeader.ReadLeBytes | software/background_processes/livePreview.c:78-89 | a little-endian store read back gives the value modulo 256^n |
| BmpHeader.SignedRoundTrip | software/background_processes/livePreview.c:82-83 | a C `int`, stored in 4 bytes and read back signed, is unchanged |
| BmpHeader.FileHeader | software/background_processes/livePreview.c:75-79 | the file header part is 14 bytes starting with "BM" |
| BmpHeader.InfoHeader | software/background_processes/livePreview.c:80-89 | the info header part is 40 bytes |
| BmpHeader.CreateBmpHeader | software/background_processes/livePreview.c:70-90 | the header is 54 bytes |
| BmpHeader.HeaderIsBytes | software/background_processes/livePreview.c:70-90 | every one of the 54 entries is a byte: the header is written into an `unsigned char` buffer (`bmp_header[54]`, line 267) |
| BmpHeader.FileHeaderFields | software/background_processes/livePreview.c:76-79 | "BM", file size 230454, four zero reserved bytes, pixel offset 54 |
| BmpHeader.InfoSizeField | software/background_processes/livePreview.c:80 | info-header size 40 at offset 14 |
| BmpHeader.WidthField | software/background_processes/livePreview.c:81 | width 320 at offset 18 |
| BmpHeader.HeightField | software/background_processes/livePreview.c:82-83 | height -240, top-down, in two's complement at offset 22 |
| BmpHeader.PlanesField | software/background_processes/livePreview.c:84 | planes 1 as a 16-bit field at offset 26 |
| BmpHeader.DepthField | software/background_processes/livePreview.c:85 | depth 24 as a 16-bit field at offset 28 |
| BmpHeader.CompressionField | software/background_processes/livePreview.c:86 | compression 0 at offset 30 |
| BmpHeader.ImageSizeField | software/background_processes/livePreview.c:87 | image size 230400 at offset 34 |
| BmpHeader.XResolutionField | software/background_processes/livePreview.c:88 | 2835 pixels per metre at offset 38 |
| BmpHeader.YResolutionField | software/background_processes/livePreview.c:89 | 2835 pixels per metre at offset 42 |
| BmpHeader.PaletteFields | software/background_processes/livePreview.c:75 | the palette counts at offsets 46..53 are zero |
| LivePreview.ReadExact | software/background_processes/livePreview.c:213-229 | returns `len` or -1, never a partial count. -1 comes only after 501 consecutive empty reads with the frame incomplete; `len` comes at the first call that completes the frame; no earlier quiet run was long enough to give up |
| LivePreview.LivePrefix | software/background_processes/livePreview.c:317-343 | the passes before the first short frame or cleared flag |
| LivePreview.SessionShape | software/background_processes/livePreview.c:305-343 | a session sends `L\n`, then one `A\n` per full frame with the flag set, then `X\n` only when the flag was cleared; a short frame ends it silently |
| LivePreview.LoopShape | software/background_processes/livePreview.c:317-343 | the handshake loop acknowledges exactly the leading live frames, and sends a stop only when it stops |
| LivePreview.SessionIgnoresLaterPasses | software/background_processes/livePreview.c:317-343 | once a session ends, nothing after it changes what it sent or decoded |
| LivePreview.LiveFile | software/background_processes/livePreview.c:346-353 | each file written is 230454 bytes: the header, then the decoded frame |
| WigglerGeometry.ChooseReference | software/background_processes/wiggler.py:363-375 | the reference is a usable frame of least height, ties to the first; none exists exactly when no frame is usable |
| WigglerGeometry.ReferenceUnique | software/background_processes/wiggler.py:363-375 | the reference rule picks one frame |
| WigglerGeometry.BorderDistances | software/background_processes/wiggler.py:382-391 | a centre inside the reference gives non-negative border distances |
| WigglerGeometry.RefWindowIsRefSize | software/background_processes/wiggler.py:382-393 | the reference window is exactly the reference frame's size |
| WigglerGeometry.ShiftInto | software/background_processes/wiggler.py:411-430 | a window no larger than the frame keeps its size and ends up inside the frame |
| WigglerGeometry.ClampSpan | software/background_processes/wiggler.py:431-434 | the clamped range lies in the frame, and a range already inside is unchanged |
| WigglerGeometry.ShiftFits | software/background_processes/wiggler.py:411-434 | a window no larger than the frame is shifted inside it at full size, and the clamp leaves it alone |
| WigglerGeometry.ShiftKeepsCentre | software/background_processes/wiggler.py:411-434 | the shifted and clamped window lies in the frame and contains the centre |
| WigglerGeometry.FitWindow | software/background_processes/wiggler.py:404-459 | an empty clamped window falls back to the 1×1 window at the clamped centre |
| WigglerGeometry.FitWindowBounds | software/background_processes/wiggler.py:404-459 | the final window lies in the frame, contains the centre and is no larger than the reference |
| WigglerGeometry.FitWindowNoFallback | software/background_processes/wiggler.py:404-440 | with the centre in the frame neither clamped range is empty, so the 1×1 fallback never applies |
| WigglerGeometry.FitWindowKeepsSize | software/background_processes/wiggler.py:404-434 | when the reference size fits, the window has exactly that size, is inside the frame, and is the shifted one |
| WigglerGeometry.AdjustZoom | software/background_processes/wiggler.py:336-465 | nothing when no frame is usable; otherwise one window per frame around the chosen reference |
| WigglerGeometry.ZoomWindows | software/background_processes/wiggler.py:377-459 | a window exactly for each usable frame |
| WigglerGeometry.ReferenceWindowIsWholeFrame | software/background_processes/wiggler.py:382-434 | the reference frame's window is the whole frame |
| WigglerGeometry.ClampedCrop | software/background_processes/wiggler.py:247-251 | crops are clamped to [-(W-1), W-1], and one already inside is kept |
| WigglerGeometry.CropAxis | software/background_processes/wiggler.py:243-291 | the range is never empty and lies inside a non-empty image |
| WigglerGeometry.CropAxisSingleSided | software/background_processes/wiggler.py:243-291 | a positive crop trims the start, a negative crop trims the end, by its size; the span is non-empty and inside the image |
| WigglerGeometry.CropAxisEmptyImage | software/background_processes/wiggler.py:285-291 | an image of no pixels gets the one-pixel span at 0 |
| WigglerGeometry.CropBox | software/background_processes/wiggler.py:243-291 | the crop box of a non-empty image is non-empty and inside it |
| WigglerGeometry.Boomerang | software/background_processes/wiggler.py:488-495 | no GIF exactly when there are no frames |
| WigglerGeometry.Bounce | software/background_processes/wiggler.py:491-495 | steps 0..2n-2 show a frame in 0..n-1, and the step is the frame exactly on the way forward |
| WigglerGeometry.BoomerangOrder | software/background_processes/wiggler.py:491-495 | n > 1 frames give 2n-2 steps, forwards then back; first and last frames appear once |
| WigglerGeometry.BounceMiddle | software/background_processes/wiggler.py:491-495 | every middle frame appears twice, once each way |
| WigglerGeometry.BounceSteps | software/background_processes/wiggler.py:491-495 | consecutive GIF steps, including the loop back, show neighbouring frames |
| WigglerGeometry.BoomerangSingle | software/background_processes/wiggler.py:491-495 | one frame gives itself |
| WigglerGeometry.RemapCoordinates | software/background_processes/wiggler.py:606-613 | the x coordinate is mirrored against the width (`size[1]`, the caller passes (H, W)), y is kept |
| WigglerGeometry.RemapFullSize | software/background_processes/wiggler.py:615-619 | the two size components are swapped |
| WigglerGeometry.RemapInvolutions | software/background_processes/wiggler.py:606-619 | both remappings undo themselves |
| WigglerPaths.FirstExisting | software/background_processes/wiggler.py:80-84 | the first candidate on disk, or none exactly when none is on disk |
| WigglerPaths.FirstExistingAppend | software/background_processes/wiggler.py:117-135 | trying two lists in turn equals trying their concatenation |
| WigglerPaths.WithExts | software/background_processes/wiggler.py:80-82 | one candidate per common extension, in order |
| WigglerPaths.ResolveExisting | software/background_processes/wiggler.py:77-84 | the first existing `base + ext` over the common extensions |
| WigglerPaths.LastIndex | software/background_processes/wiggler.py:113-115 | the last position of a character, none exactly when it is absent |
| WigglerPaths.RStripSlashes | software/background_processes/wiggler.py:113-115 | removes exactly the trailing slashes |
| WigglerPaths.Split | software/background_processes/wiggler.py:113-114 | the name is a slash-free suffix; the directory is empty exactly when there is no slash |
| WigglerPaths.SplitExt | software/background_processes/wiggler.py:115 | stem and extension concatenate to the name; the extension is empty or one dot-led dot-free piece |
| WigglerPaths.Join | software/background_processes/wiggler.py:117-119 | an absolute second part wins; the result ends with the second part |
| WigglerPaths.SplitJoin | software/background_processes/wiggler.py:113-119 | splitting a joined path gives back its directory and name |
| WigglerPaths.SplitExtOfAppended | software/background_processes/wiggler.py:115 | splitting a stem plus extension gives them back |
| WigglerPaths.ResolveGifOrFirstJpg | software/background_processes/wiggler.py:97-156 | nothing for an empty path, the path itself if it exists, otherwise the first existing candidate; anything returned exists |
| WigglerPaths.TryFrames | software/background_processes/wiggler.py:117-135 | the first `<stem>_1` image found in the base folder, then IMAGES_DIR, then RAWS_DIR |
| WigglerPaths.GifResolvesToFirstFrame | software/background_processes/wiggler.py:121-135 | a `.gif` path resolves through the `<stem>_1.{jpg,jpeg,png}` candidates of its own folder, then of the image folders |
| WigglerPaths.OtherExtensionResolvesToNothing | software/background_processes/wiggler.py:155-156 | a missing path with any other extension resolves to nothing |
| LedControl.Wheel | software/background_processes/ledControl.py:114-123 | channels are bytes summing to 255, and one channel is 0 in each third of the wheel |
| LedControl.WheelPeriodic | software/background_processes/ledControl.py:116 | the colour depends only on the position modulo 256 |
| LedControl.WheelContinuous | software/background_processes/ledControl.py:114-123 | one step along the wheel changes each channel by at most 3, across the wrap too |
| LedControl.Clear | software/background_processes/ledControl.py:101-104 | every LED off, length kept |
| LedControl.FadeAll | software/background_processes/ledControl.py:107-111 | each channel of each LED drops by the amount (a negative one counts as 0), floored at 0; length kept, colours stay colours |
| LedControl.FadeAllCompose | software/background_processes/ledControl.py:107-111 | fading twice equals fading once by the sum |
| LedControl.FadeAllFullIsClear | software/background_processes/ledControl.py:107-111 | fading by 255 or more clears the strip |
| LedControl.Spacing | software/background_processes/ledControl.py:168 | the spacing is at least 1 and equals a positive gap |
| LedControl.TheaterFrame | software/background_processes/ledControl.py:168-175 | whatever the buffer showed before, the frame keeps its length and lights exactly the LEDs with index ≡ step (mod max(1, gap)) |
| LedControl.NextStep | software/background_processes/ledControl.py:177 | the step stays in 0..g-1 |
| LedControl.TheaterAdvances | software/background_processes/ledControl.py:168-177 | the next frame lights exactly the successors of the LEDs lit now |
| LedControl.CometFrame | software/background_processes/ledControl.py:146-156 | a frame fails exactly when the head is out of Python's index range, and keeps the strip length |
| LedControl.CometBounces | software/background_processes/ledControl.py:146-156 | with two or more LEDs the head paints its LED, the rest fade, the position stays on the strip, and the direction flips exactly at the ends |
| LedControl.CometSingleLedFails | software/background_processes/ledControl.py:151-156 | with one LED the second frame indexes past the end |
| LedControl.WhiteLevel | software/background_processes/ledControl.py:194 | brightness clamped to a byte |
| LedControl.WhiteRamp | software/background_processes/ledControl.py:196-205 | 35 levels, each between 0 and the clamped brightness, the last equal to it |
| LedControl.RampLevel | software/background_processes/ledControl.py:201-202 | each ramp level lies between 0 and the brightness and the last one equals it |
| LedControl.WhiteRampNondecreasing | software/background_processes/ledControl.py:201-205 | ramp levels never decrease |
| LedControl.WhiteFrame | software/background_processes/ledControl.py:203-213 | every LED shows the same white level |
| FanControl.Duty | software/background_processes/fan_control.py:22-50 | duty is one of 0, 85, 170, 255: 0 exactly for a negative level, the table entry of the level clamped to 0..2 otherwise |
| FanControl.DutyMonotone | software/background_processes/fan_control.py:46-50 | a higher level never lowers the duty |
| FanControl.LStrip | software/background_processes/fan_control.py:77 | removes exactly the leading blanks of the chosen set |
| FanControl.RStrip | software/background_processes/fan_control.py:77 | removes exactly the trailing blanks of the chosen set |
| FanControl.Strip | software/background_processes/fan_control.py:77 | the result is no longer than the input and starts and ends with a non-blank |
| FanControl.StripCutsWhitespace | software/background_processes/fan_control.py:77 | the stripped command is a slice with only blanks around it |
| FanControl.StripTrimmed | software/background_processes/fan_control.py:77 | a string without blanks at its ends is left alone |
| FanControl.Lower | software/background_processes/fan_control.py:77 | ASCII capitals become lower case, everything else is kept |
| FanControl.ParsePyInt | software/background_processes/fan_control.py:84 | `int()` accepts nothing that is only blanks |
| FanControl.Decimal | software/background_processes/fan_control.py:84 | the decimal rendering is digits spelling its value |
| FanControl.DigitsIndex | software/background_processes/fan_control.py:84 | every character of a digit string is a decimal digit |
| FanControl.ParseDecimal | software/background_processes/fan_control.py:84 | `int()` reads back every decimal rendering, signed or not, up to 4300 digits, and refuses longer ones |
| FanControl.ParsePlainDigits | software/background_processes/fan_control.py:84 | a digit string reads as its value within the digit limit and is refused beyond it |
| FanControl.ParseMinus | software/background_processes/fan_control.py:84 | a minus and digits read as the negated value within the digit limit and are refused beyond it |
| FanControl.ParseRejects | software/background_processes/fan_control.py:84-89 | a bare sign, a doubled underscore and the empty string are rejected |
| FanControl.SeparatorNotIntBlank | software/background_processes/fan_control.py:77-89 | U+001C is stripped from a command but makes a level invalid |
| FanControl.PaddedLevel | software/background_processes/fan_control.py:84 | `int()` skips an ideographic space, a space and a newline around a level |
| FanControl.SetDuty | software/background_processes/fan_control.py:25-59 | exit 0 with the duty of the level set exactly when pigpio works, exit 1 and nothing set otherwise |
| FanControl.FanMain | software/background_processes/fan_control.py:62-94 | exit code 0 exactly when a duty was set; codes are 0, 1 or 2 |
| FanControl.FanMainCodes | software/background_processes/fan_control.py:74-94 | fewer than two arguments give 2; "off" gives 0 if the duty was set and 1 otherwise; "level" without a valid integer gives 2; with one it sets that level's duty, or exits 1 with nothing set when pigpio fails; anything else gives 2 |
| FanControl.LevelOne | software/background_processes/fan_control.py:81-91 | `level 1` sets duty 170 |
| FanControl.PaddedUpperOff | software/background_processes/fan_control.py:77-80 | a padded upper-case ` OFF` still turns the fan off |

## Left out

- Threads and synchronisation (`trigger_event`, the locks, thread fan-out and join in `run_camera_batch`, the thread pool in `wiggler.py`) are concurrency. Each worker is modelled as its own sequential trace, and the batch as the list of those traces.
- The serial port itself (pyserial, `setup_serial` and termios, the raw `read`/`write` calls) is I/O. The port is a behaviour parameter and `read` returns a script.
- A serial error is modelled only at port opening. A `SerialException` raised mid-transfer is I/O the model does not describe.
- `time.sleep`, `usleep` and the timing and FPS arithmetic of the preview loop are timing, with no effect on the integer results.
- The SQLite live flag (`check_live_status`, `disable_live_mode`) is an external store. Its readings are the per-pass flags of the session model.
- The outer database-polling loop of the preview `main` is left out: it only restarts sessions. `fopen` failing is not modelled; `LiveFile` is the file as written.
- The float32 decoder `yuv422_to_rgb` is floating-point image arithmetic.
- `calculateCrop`, the aspect-ratio correction of `crop_image_sides` and the percentage-to-pixel rounding of `adjustZoom` are floating-point. The centres are integer inputs instead.
- Image and file I/O are library calls: PIL, numpy and matplotlib loading and saving, EXIF handling, GIF quantisation, image validation, the `pick_point` UI, directory creation, cleanup, and the extra first-image save of a batch.
- argparse and the command-line front ends are process plumbing. So are PID files and signal handling in `ledControl.py`, `run_effect`, `clear_strip`, and the WS2812 and pigpio drivers; `pigpio` is a boolean parameter.
- `effect_rainbow` and `effect_solid_color` are left out. They are a `wheel` walk and a constant fill, and both only repeat what `Wheel` and `WhiteFrame` state.
- `button.c` and `readVoltage.c` are not part of this model. They are GPIO polling and an I2C read with a floating-point percentage.
- Registers.RegistryUpdates: the count of 35 distinct addresses in the literal is not proved. The model proves key membership, first-occurrence order and last-occurrence values instead.
- FanControl.ParsePyInt: `int()` also accepts non-ASCII Unicode decimal digits (Arabic-Indic, fullwidth and so on); the model refuses them. The digit limit is the default 4300; a program that changes it with `sys.set_int_max_str_digits` is not modelled.
- FanControl.FanMainCodes: a level written in non-ASCII Unicode digits exits 2 in the model, while Python would set the fan. This follows from the `ParsePyInt` line above. `str.lower()` also folds non-ASCII letters, and `Lower` folds ASCII only; this is exact for the comparisons with "off" and "level".
- FanControl.Strip: its own contract states only the length bound and that both ends are non-blank. That the result is the original with only blanks removed around it is stated by `StripCutsWhitespace`.
- CameraWorker.ReadUpTo: pyserial's own chunking and the timeout clock are not modelled; the arriving bytes are given.
- BmpHeader.CreateBmpHeader: the `int *` and `short *` stores of `create_bmp_header` (`livePreview.c:78-89`) write in host byte order. The model writes little-endian, which is the byte order of the Raspberry Pi the program runs on. A big-endian host would write a different header. The stores are also unaligned, which ARM tolerates.
