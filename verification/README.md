# IvImage resource model

A Dafny model of the image bookkeeping in the `iv` image viewer
(`src/iv/imageviewer.h`). The model covers:

- the `IvImage` record: name, subimage count, spec, pixel buffer (possibly null), thumbnail, validity flags, bad-file flag, pending error, gamma and exposure;
- the record's five states;
- read-and-clear of the error message;
- the `scanline` / `pixeladdr` address arithmetic;
- the display-parameter accessors;
- the promises of `read` and `init_spec`;
- the viewer's list of images with its current index, and `cur()` / `curspec()`.

Everything is pure. Each operation takes a record and returns the updated
record. The image library is an abstract `Library` value with two calls:
`open` reads a header and `decode` decodes a subimage, and either may fail
with a message.

Modules:

- `Wrappers`: `Option` (the null pointer) and `Result`.
- `Layout`: the spec's strides and the offset arithmetic, with its bounds, ordering, disjointness and inverse.
- `IvImage`: the record, its states, the error message, the display parameters, buffer addressing, and `init_spec` / `read`.
- `ImageViewer`: the image list, the index invariant `-1 <= current < |images|`, `cur`, `curspec`, adding and selecting images.

## Model

| member | source | states |
|---|---|---|
| IvImage.NewImage | src/iv/imageviewer.h:50 | a new record knows only its name: no buffer, all four flags false, no error, gamma 1.0 and exposure 0.0; it satisfies the record invariant and is Ignorant, or Uninitialized for an empty name |
| IvImage.ErrorMessage | src/iv/imageviewer.h:65-71 | returns exactly the pending error; afterwards the error is empty and no other field has changed |
| IvImage.ErrorMessageTwice | src/iv/imageviewer.h:67-71 | two consecutive reads return the error and then the empty string; the second read changes nothing |
| IvImage.SetGamma | src/iv/imageviewer.h:85-86 | after setting gamma the getter returns exactly that value; every other field is unchanged |
| IvImage.SetExposure | src/iv/imageviewer.h:87-88 | after setting exposure the getter returns exactly that value; every other field is unchanged |
| IvImage.DisplayParamsIndependent | src/iv/imageviewer.h:85-88 | gamma and exposure settings commute; the last setting wins; setting the current value is the identity |
| IvImage.Scanline | src/iv/imageviewer.h:77-81 | with a buffer, scanline y is at byte offset y * scanline_bytes; with no buffer there is no address |
| IvImage.PixelAddr | src/iv/imageviewer.h:103-106 | with a buffer, pixel (x, y) is at byte offset y * scanline_bytes + x * pixel_bytes; with no buffer there is no address |
| IvImage.PixelAddrColumnZero | src/iv/imageviewer.h:79-106 | pixeladdr(0, y) and scanline(y) give the same address |
| IvImage.PixelAddrInBuffer | src/iv/imageviewer.h:103-106 | for in-range (x, y), pixel_bytes > 0, scanline_bytes >= width * pixel_bytes and a buffer of height * scanline_bytes bytes, the pixel's bytes lie inside the buffer |
| IvImage.PixelAddrInjective | src/iv/imageviewer.h:103-106 | under the same strides, two in-range pixels have the same address exactly when they are the same pixel |
| Layout.Scanlines | src/iv/imageviewer.h:77-81 | cutting a buffer of at least n * stride bytes into scanlines gives exactly n rows of exactly stride bytes each |
| Layout.ScanlineIsRow | src/iv/imageviewer.h:77-81 | row y of that cut is the stride bytes starting at offset y * stride, and those bytes lie inside the buffer |
| Layout.PixelInRow | src/iv/imageviewer.h:79-106 | for an in-range pixel, the pixel_bytes bytes at pixeladdr(x, y) are the bytes starting at x * pixel_bytes of scanline y, and the pixel fits inside its scanline |
| IvImage.ScanlineAddrIsRow | src/iv/imageviewer.h:77-81 | in a resident, correctly sized buffer, scanline(y) for y < height addresses exactly row y of the buffer |
| Layout.PixelZeroIsScanline | src/iv/imageviewer.h:79-106 | the pixel offset of column 0 equals the scanline offset |
| Layout.PixelWithinScanline | src/iv/imageviewer.h:79-106 | a pixel of an in-range column lies between the start of its scanline and the start of the next one |
| Layout.PixelInBounds | src/iv/imageviewer.h:103-106 | every in-range pixel's bytes lie within [0, height * scanline_bytes) |
| Layout.RowMajorOrder | src/iv/imageviewer.h:103-106 | a pixel earlier in row-major order ends at or before the start of a later pixel |
| Layout.PixelsDisjoint | src/iv/imageviewer.h:103-106 | distinct in-range pixels occupy disjoint byte ranges, so their offsets differ |
| Layout.PixelAtInvertsOffset | src/iv/imageviewer.h:103-106 | the pixel can be recovered from its offset: offset div scanline_bytes is y, and the remainder div pixel_bytes is x |
| IvImage.ClassifyAsWritten | src/iv/imageviewer.h:127-137 | applies the five written state tests in order; the state found passes its test and fails all earlier tests; no state is found only when every test fails |
| IvImage.StaleBufferHasNoState | src/iv/imageviewer.h:132-137 | every named, not-bad record with a valid spec, an allocated buffer and pixels_valid false passes none of the written tests |
| IvImage.Classify | src/iv/imageviewer.h:127-137 | every record gets a state whose test holds while no earlier test holds |
| IvImage.ExactlyOneState | src/iv/imageviewer.h:127-137 | a record is in state s if and only if s is its classified state, so each record is in exactly one state |
| IvImage.ResidentNeedsBufferAndValidFlag | src/iv/imageviewer.h:127-137 | Resident holds exactly for a named, not-broken, spec-known record that has both a buffer and pixels_valid |
| IvImage.ClassifyAgreesWhenBufferMatchesFlag | src/iv/imageviewer.h:115-137 | when the buffer is present exactly when pixels_valid holds, the written tests and the corrected tests give the same state |
| IvImage.InitSpec | src/iv/imageviewer.h:60-63 | returns true exactly when the header could be read. On success the spec and subimage count are the header's, and the record is spec-valid and not bad. On failure the record is bad, holds the library's message and has no buffer. Held pixels survive only while they are still subimage 0 of the same file with the same spec, so init_spec never makes a record current for pixels it did not hold. A thumbnail survives only for the same file |
| IvImage.InitSpecSameHeaderIsNoOp | src/iv/imageviewer.h:60-63 | re-reading the unchanged header of the file that a valid, not-bad record holding subimage 0 already describes leaves the record as it was |
| IvImage.Read | src/iv/imageviewer.h:53-58 | without force, a record already holding the requested subimage is returned unchanged with true, and a broken record that does not is returned unchanged with false. True always leaves the requested subimage current. A decode failure changes only the error message |
| IvImage.ReadBrokenNeedsForce | src/iv/imageviewer.h:53-58 | a non-forced read of a broken record fails and changes nothing, whatever the decoder would return |
| IvImage.ReadSkipsDecodeWhenCurrent | src/iv/imageviewer.h:53-58 | a non-forced read of a current subimage has the same outcome whatever the decoder would return, so no decode takes place |
| IvImage.ReadDecodesOtherwise | src/iv/imageviewer.h:53-58 | a forced read, or a read of a non-current subimage of a record that is not broken, succeeds exactly when the decoder does; the buffer, spec and subimage count are then the decoded ones |
| IvImage.FailedReadKeepsPixels | src/iv/imageviewer.h:53-58 | a failed read, even a forced one, keeps the previous buffer and the previous state |
| IvImage.ReadMakesResident | src/iv/imageviewer.h:53-58 | a decode whose data size matches its spec leaves the record Resident with a correctly sized buffer |
| IvImage.ConsistentPreserved | src/iv/imageviewer.h:115-137 | a new record satisfies the invariant "buffer present exactly when pixels_valid, and no buffer when bad_file". init_spec, read, error_message and the gamma and exposure setters preserve it. Every record satisfying it passes one of the written state tests |
| IvImage.WellSizedPreserved | src/iv/imageviewer.h:53-81 | a new record, init_spec, error_message and the setters keep the buffer, when present, exactly height * scanline_bytes long; read does so too when the decoder's data has the size its spec describes |
| IvImage.LifecycleFromName | src/iv/imageviewer.h:127-137 | a record with only a name is Ignorant, and one with an empty name is Uninitialized; after init_spec it is SpecKnown on success and Broken on failure |
| ImageViewer.EmptyViewer | src/iv/imageviewer.h:279-280 | the initial empty list with index -1 satisfies the index invariant |
| ImageViewer.Cur | src/iv/imageviewer.h:185-191 | returns none exactly when the list is empty or the index is negative; otherwise returns images[current] |
| ImageViewer.CurSpec | src/iv/imageviewer.h:193-198 | returns none exactly when cur() does; otherwise returns the spec of cur() |
| ImageViewer.CurNoneIffMinusOne | src/iv/imageviewer.h:279-280 | when the index is -1 or a position in the list, cur() and curspec() are none exactly when the index is -1 |
| ImageViewer.AddImage | src/iv/imageviewer.h:156-159 | appends one image with the given name, keeps the earlier images and the current index, and preserves the index invariant. Without getspec the added record is exactly a fresh record, so the file is not opened. With getspec the record holds the header's spec and subimage count when the header could be read, and is bad when it could not |
| ImageViewer.AddedImageNotResident | src/iv/imageviewer.h:156-159 | an added image is never resident; with getspec it is SpecKnown exactly when its header could be read |
| ImageViewer.SelectImage | src/iv/imageviewer.h:161-163 | an in-range index n becomes the current index and the previous index is remembered as the last one; any other index changes nothing; the invariant is preserved |
| ImageViewer.AllConsistentPreserved | src/iv/imageviewer.h:156-163 | adding and selecting images keep every listed record within the record invariant |
| ImageViewer.SelectThenBack | src/iv/imageviewer.h:161-163 | selecting the remembered last index after a selection returns to the previously viewed image |

## Left out

- The bodies of `read`, `init_spec`, `add_image` and `current_image (int)` are not in `src/iv/imageviewer.h`. They are modelled only as far as their doc comments go, plus these explicit choices:
  - a successful decode stores the decoded spec, subimage and data, sets the spec and pixel flags, and clears `bad_file`;
  - a failed decode only records its message;
  - a read of a broken record without `force` fails without consulting the decoder;
  - `bad_file` is set only by `init_spec`, which then also drops the buffer;
  - `init_spec` keeps held pixels only while they are subimage 0 of the same file with the same spec;
  - an out-of-range `current_image` index is ignored.
- IvImage.Read: the buffer a successful read stores is the decoder's data as returned. It is not allocated from the spec. The buffer has the height * scanline_bytes bytes the spec describes only when the decoder returns that many; `WellSizedPreserved` states this condition.
- IvImage.InitSpecSameHeaderIsNoOp: this promise covers only a record holding subimage 0. A valid record viewing another subimage of the same unchanged file is reset to subimage 0 and loses its buffer. The header the library returns describes subimage 0, so keeping another subimage's pixels beside it would pair a buffer with the wrong spec.
- IvImage.Scanline: the source forms an address from a null buffer without checking. The model returns `Failure(NoBuffer)` instead.
- IvImage.PixelAddr: the same as `Scanline`, for a null buffer.
- Layout.PixelInBounds: offsets are unbounded integers. The `size_t` wrap-around of `y * scanline_bytes()` for negative or huge arguments is not modelled.
- The strides `scanline_bytes()` and `pixel_bytes()` are stored fields. Their derivation inside `ImageIOFormatSpec` belongs to the image library.
- Gamma and exposure are `real`. They are only stored, never computed on, so float rounding does not arise.
- The constructor body is not shown. `NewImage` uses gamma 1.0 and exposure 0.0 as defaults, and clears every flag.
- Progress callbacks, the thumbnail contents, `getpixel` format conversion, `shortinfo` / `longinfo` and `html_table_row`: these are library calls or bodies not shown.
- Zoom, pan, channel selection, OpenGL rendering, and every Qt window, menu, dialog, printing and settings member: these are UI or GPU code. The zoom members are float-based and have no bodies in the header.
- The prev/next/toggle image navigation slots and `m_last_image` handling: these have no bodies in the header. Only the "remember the previous index" part of `SelectImage` is modelled.

## Findings

| source | as written | input that shows it | evidently intended | confidence | as-written member | corrected member |
|---|---|---|---|---|---|---|
| src/iv/imageviewer.h:127-137 | the "non-resident, know spec" test is `m_spec_valid && ! m_pixels`, so the five tests do not cover every record | a record named "a.exr", not bad, with a valid spec, an allocated buffer and `m_pixels_valid` false | the spec-known state covers any record with a known spec whose pixels are not current. Line 134's own wording, "know spec, but the spec is valid", is garbled | medium, not executed | IvImage.ClassifyAsWritten, IvImage.StaleBufferHasNoState | IvImage.Classify, IvImage.ExactlyOneState |

The model's own operations never produce the uncovered record. `IvImage.ConsistentPreserved` and `ImageViewer.AllConsistentPreserved` show that every record they build keeps a buffer exactly when `pixels_valid` holds. On such records the written tests and the corrected ones agree. Whether the code outside the header ever produces the uncovered record cannot be seen from `src/iv/imageviewer.h`.
