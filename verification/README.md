# Pixel and image helpers of eazax-ccc, modelled in Dafny

The `NodeUtil` and `ImageUtil` helpers of the eazax-ccc toolkit for Cocos Creator are
mostly engine and DOM glue around a few pieces of real computation. This project models
those pieces and proves what they promise:

- **`NodeUtil.getPixelsData`**. It floors the node's size to whole pixels. When `flipY`
  is set, it copies the render-texture readback into a fresh `Uint8Array` with the
  rows in reverse order.
  - `node_util.dfy` models the copy as a method over arrays (`FlipRows`, with the inner
    row copy `CopyRow`).
  - It is proved against the specification function `Flipped`. `Flipped` is row
    reversal, shown to be an involution and given a byte-by-byte description
    (`FlippedAt`).
- **`ImageUtil.getPixelColor`**. It computes the row-major, top-left-origin byte offset
  of a pixel and reads four bytes as R, G, B, A through `TypedArray.slice`.
- **`ImageUtil.imageToBase64`**. It picks the MIME type from the left-most `.png`,
  `.jpg` or `.jpeg` in a URL, or gives `null`.
- **`ImageUtil.base64ToBlob`**. It splits a data URL at commas and takes the type from
  `/image\/\w+|;/`. It decodes the segment after the first comma with `atob`, then
  fills a `Uint8Array` with `charCodeAt(i) & 0xff`. `image_util.dfy` models the filling
  as a method with a loop.

`js_builtins.dfy` states the JavaScript built-ins that these functions rely on:

- `slice` with relative and clamped indices;
- `split` on one character, with `join` as its inverse;
- the left-most scan of `RegExp.prototype.exec`;
- `&` on non-negative numbers.

`arith.dfy` holds small multiplication and division facts that the proofs use.

## Model

| member | source | states |
|---|---|---|
| NodeUtil.BufferDimensions | assets/eazax-ccc/utils/NodeUtil.ts:19-20 | the buffer width and height are the floors of the node's content size: each lies in (size - 1, size] |
| NodeUtil.ReadbackFits | assets/eazax-ccc/utils/NodeUtil.ts:34-43 | the readback is `width * height * 4` bytes; a node between 0 and 1 pixel wide then fits only an empty readback, so the copy loop, whose step is 0 for it, has nothing to do |
| NodeUtil.Flipped | assets/eazax-ccc/utils/NodeUtil.ts:40-42 | the flipped buffer has exactly the readback's length |
| NodeUtil.FlippedAt | assets/eazax-ccc/utils/NodeUtil.ts:43-46 | for a buffer of `rows` rows, byte `k < lineWidth` of row `r` of the result is byte `k` of row `rows - 1 - r` of the input, and both offsets lie inside the buffer |
| NodeUtil.FlippedAtMirror | assets/eazax-ccc/utils/NodeUtil.ts:43-46 | the row that starts `above` whole rows into the buffer ends up with as many bytes after it as it had before it |
| NodeUtil.FlippedTwice | assets/eazax-ccc/utils/NodeUtil.ts:43-46 | flipping a buffer of whole rows twice gives it back (row reversal is an involution) |
| NodeUtil.FlippedAppend | assets/eazax-ccc/utils/NodeUtil.ts:43-46 | flipping whole rows followed by more bytes gives the flipped rest first, then the flipped rows |
| NodeUtil.WholeRowsOf | assets/eazax-ccc/utils/NodeUtil.ts:40-43 | a readback of `rows * lineWidth` bytes is a whole number of rows, so the outer loop's cursor never stops inside a row |
| NodeUtil.FlipStep | assets/eazax-ccc/utils/NodeUtil.ts:43 | each outer iteration extends the flipped prefix by the row just above the rows copied so far |
| NodeUtil.CopyRow | assets/eazax-ccc/utils/NodeUtil.ts:44-46 | the inner loop writes `data[i..i+lineWidth]` from `pixelsData[j..j+lineWidth]` and keeps `data[..i]` and everything from `data[i+lineWidth]` on as they were |
| NodeUtil.FlipRows | assets/eazax-ccc/utils/NodeUtil.ts:39-48 | it allocates a fresh `data` and fills it with exactly the flipped readback. The readback array is only read. The loop keeps `i + j == length - lineWidth`, and `data[..i]` is the flip of the last `i` bytes |
| NodeUtil.GetPixelsData | assets/eazax-ccc/utils/NodeUtil.ts:14-50 | an invalid node gives `null`; without `flipY` the readback itself comes back; with `flipY` a fresh array holding the flipped readback comes back |
| ImageUtil.PixelIndex | assets/eazax-ccc/utils/ImageUtil.ts:46 | every pixel's offset is a multiple of 4, the start of an RGBA quadruple; `PixelInBuffer` and `PixelIndexInverse` give its meaning inside the picture |
| ImageUtil.GetPixelColor | assets/eazax-ccc/utils/ImageUtil.ts:44-49 | a colour comes back exactly when the four-byte slice at the pixel's offset is complete |
| ImageUtil.PixelInBuffer | assets/eazax-ccc/utils/ImageUtil.ts:46-48 | for `0 <= x < width` and `0 <= y < height` on a `width * height * 4` byte buffer, the offset is `4 * (width * floor(y) + floor(x))`, its four bytes lie inside the buffer and the colour is those bytes as R, G, B, A |
| ImageUtil.OriginPixel | assets/eazax-ccc/utils/ImageUtil.ts:36-48 | any point in the first pixel has offset 0, and its colour is the first four bytes |
| ImageUtil.PixelIndexInverse | assets/eazax-ccc/utils/ImageUtil.ts:46 | the offset is a multiple of 4 from which the column is `(i / 4) % width` and the row `(i / 4) / width` |
| ImageUtil.FlippedPixel | assets/eazax-ccc/utils/ImageUtil.ts:46-48 | reading pixel (x, y) of a `flipY` buffer gives pixel (x, height - 1 - y) of the readback |
| ImageUtil.ExtensionAt | assets/eazax-ccc/utils/ImageUtil.ts:59 | an extension the pattern reports at `i` occurs in the URL at `i`; `ExtensionAtExclusive` gives the converse |
| ImageUtil.ExtensionAtExclusive | assets/eazax-ccc/utils/ImageUtil.ts:59 | the pattern matches at `i` exactly when `.png`, `.jpg` or `.jpeg` occurs there; the one that occurs is the one reported, and it starts with a dot |
| ImageUtil.ImageMimeType | assets/eazax-ccc/utils/ImageUtil.ts:59-70 | the only types requested are `image/png` and `image/jpeg`; `ImageMimeTypeNone` says when the result is `null` and `ImageMimeTypeLeftmost` which of the two comes back |
| ImageUtil.ImageMimeTypeNone | assets/eazax-ccc/utils/ImageUtil.ts:59-60 | the result is `null` exactly when none of the three extensions occurs anywhere in the URL |
| ImageUtil.ImageMimeTypeAt | assets/eazax-ccc/utils/ImageUtil.ts:59-70 | the type is `image/` followed by the subtype of the extension at the left-most match |
| ImageUtil.RemoveFirst | assets/eazax-ccc/utils/ImageUtil.ts:69 | `replace('.', '')` drops exactly one character when a dot is present, and leaves the string alone otherwise |
| ImageUtil.RemoveFirstAt | assets/eazax-ccc/utils/ImageUtil.ts:69 | the character dropped is the first dot: what comes before it and what comes after it are kept |
| ImageUtil.MimeSubtype | assets/eazax-ccc/utils/ImageUtil.ts:69 | an extension other than `.jpg` that starts with a dot loses exactly that dot; `MimeSubtypes` gives `.jpg` its `jpeg` |
| ImageUtil.MimeSubtypes | assets/eazax-ccc/utils/ImageUtil.ts:69 | `.png` maps to `png`, and both `.jpg` and `.jpeg` map to `jpeg` |
| ImageUtil.MimeTypes | assets/eazax-ccc/utils/ImageUtil.ts:69-70 | the full type is `image/png` for `.png` and `image/jpeg` for the other two |
| ImageUtil.ImageMimeTypeLeftmost | assets/eazax-ccc/utils/ImageUtil.ts:59-70 | the left-most extension decides: `.png` gives `image/png`, and `.jpg` or `.jpeg` gives `image/jpeg` |
| ImageUtil.JpegBeforePngExample | assets/eazax-ccc/utils/ImageUtil.ts:59-70 | `img/a.jpeg.png` is sent as `image/jpeg` |
| ImageUtil.PngWithQueryExample | assets/eazax-ccc/utils/ImageUtil.ts:59-70 | `img/a.png?v=1` is sent as `image/png` |
| ImageUtil.GifExample | assets/eazax-ccc/utils/ImageUtil.ts:59-79 | `a.gif` gives `null` |
| ImageUtil.IsWordChar | assets/eazax-ccc/utils/ImageUtil.ts:109 | a `\w` character is never a comma, a semicolon or a slash |
| ImageUtil.WordRun | assets/eazax-ccc/utils/ImageUtil.ts:109 | the run that `\w+` takes from `i` stays inside the string |
| ImageUtil.WordRunMaximal | assets/eazax-ccc/utils/ImageUtil.ts:109 | the run is greedy: word characters throughout, and no word character right after it |
| ImageUtil.TypeAt | assets/eazax-ccc/utils/ImageUtil.ts:109 | a match at `i` is text that occurs at `i`, and it is either `;` or `image/` followed by at least one more character; `TypeAtMatches` gives the converse |
| ImageUtil.TypeAtMatches | assets/eazax-ccc/utils/ImageUtil.ts:109 | the type pattern (`image/` and a word run, or `;`) matches at `i` exactly when `image/` and at least one word character, or a `;`, start there. The `image/` alternative is tried first and takes the whole word run |
| ImageUtil.BlobType | assets/eazax-ccc/utils/ImageUtil.ts:108-109 | the Blob's type is `;` or starts with `image/` and has at least one more character; `BlobTypeNone` and `BlobTypeAt` say when there is one and which |
| ImageUtil.BlobTypeNone | assets/eazax-ccc/utils/ImageUtil.ts:108-109 | the header before the first comma has no type exactly when the pattern matches nowhere in it |
| ImageUtil.BlobTypeAt | assets/eazax-ccc/utils/ImageUtil.ts:108-109 | the type is the text matched at the left-most match position in the header |
| ImageUtil.DataSegment | assets/eazax-ccc/utils/ImageUtil.ts:108-110 | `strings[1]` exists exactly when the URL has a comma, and it contains no comma |
| ImageUtil.DataSegmentAfterFirstComma | assets/eazax-ccc/utils/ImageUtil.ts:108-110 | only the segment between the first and the second comma is decoded, whatever follows |
| ImageUtil.LowByte | assets/eazax-ccc/utils/ImageUtil.ts:114 | `charCodeAt(i) & 0xff` is the character code modulo 256 |
| ImageUtil.DecodedToBytes | assets/eazax-ccc/utils/ImageUtil.ts:111-115 | the fresh byte array is as long as the decoded string, and byte `i` is the code of character `i` modulo 256 |
| ImageUtil.Base64ToBlob | assets/eazax-ccc/utils/ImageUtil.ts:104-117 | no `atob` gives `null`. A header without a type, a missing comma, or a segment that `atob` rejects makes the call throw. Otherwise it returns a Blob of the decoded bytes with the matched type |
| JsBuiltins.RelativeIndex | assets/eazax-ccc/utils/ImageUtil.ts:47 | `slice` takes an in-range index as it is, counts a negative one from the end, turns one below `-length` into 0 and one above `length` into `length` |
| JsBuiltins.Slice | assets/eazax-ccc/utils/ImageUtil.ts:47 | the slice is no longer than the array; in-range bounds give exactly `s[start..end]`; an end past the array stops at the end; two negative bounds count from the end; a start at or past the end gives nothing |
| JsBuiltins.Split | assets/eazax-ccc/utils/ImageUtil.ts:108 | `split(',')` gives at least one piece, and no piece contains the separator |
| JsBuiltins.JoinSplit | assets/eazax-ccc/utils/ImageUtil.ts:108 | joining the pieces with the separator gives the string back |
| JsBuiltins.SplitJoin | assets/eazax-ccc/utils/ImageUtil.ts:108 | splitting the join of separator-free pieces gives the pieces back |
| JsBuiltins.SplitSingle | assets/eazax-ccc/utils/ImageUtil.ts:108 | there is a single piece exactly when the separator does not occur |
| JsBuiltins.Exec | assets/eazax-ccc/utils/ImageUtil.ts:59 | a non-global `exec` reports the left-most position where the pattern matches, and `null` only when it matches nowhere |
| JsBuiltins.ExecAt | assets/eazax-ccc/utils/ImageUtil.ts:109 | a match at `i` with none before it is exactly what `exec` reports |
| JsBuiltins.BitAnd | assets/eazax-ccc/utils/ImageUtil.ts:114 | `a & b` is at most each operand; `BitAndLowMask` gives its value against a low mask |
| JsBuiltins.BitAndLowMask | assets/eazax-ccc/utils/ImageUtil.ts:114 | `a & (2^k - 1)` is `a % 2^k` for non-negative `a` |

## Left out

- Engine rendering in `getPixelsData` (NodeUtil.ts:22-37) is not modelled. This covers the temporary camera, `zoomRatio`, the `RenderTexture` and the destroy calls, all engine calls.
  - The readback is the input array `readPixels`.
  - Its length is taken to be `width * height * 4`, the size of the texture `initWithSize` creates. This is the precondition `ReadbackFits`, an assumption about the engine rather than something the source checks.
- NodeUtil.GetPixelsData: a node between 0 and 1 pixel wide with a non-empty readback is excluded by `ReadbackFits`. On that input `lineWidth` is 0, so the source's outer loop (NodeUtil.ts:43) never advances and never ends; a terminating model cannot express that.
- NodeUtil.GetPixelsData: `flipY` is an explicit parameter. The source defaults it to `true` (NodeUtil.ts:14), and its callers rely on that default.
- NodeUtil.GetPixelsData: negative floored sizes are excluded by `ReadbackFits`. When both are negative, `width * height * 4` is positive while `lineWidth` (NodeUtil.ts:41) is negative. The inner loop then never runs, and `i += lineWidth` moves `i` down from 0, so `i < length` stays true and the source's outer loop (NodeUtil.ts:43) never ends. When only one is negative, `width * height * 4` is negative; what `readPixels` returns then is an assumption about the engine, not something the source decides.
- The canvas-based `ImageUtil.getPixelsData` is outside the model: `getPixelColor` takes the canvas pixel data as its `pixels` argument.
- Also outside the model: `drawImage`, `toDataURL`, `Image.onload`, the Promise and the callback of `imageToBase64`, and `base64ToCCTexture`. These are DOM and asynchronous I/O. `ImageMimeType` is the type string the code hands to `toDataURL`, with `None` for the `null` branch.
- The `window`/`document` availability probes of `getPixelColor` and the other canvas helpers are left out. In `base64ToBlob`, the `window.atob` probe is modelled as `atob` being `None`.
- `atob` is a parameter that returns `None` when it throws. Two further throws are modelled:
  - `exec(...)[0]` on a failed match throws;
  - `atob(undefined)` throws, because it decodes the nine-character text `undefined`, which is not valid base64.
- The `Blob` constructor is represented by returning the bytes with the type string. `mimeType` is the string handed to the constructor, not `Blob.type`: the constructor lowercases it (`image/PNG` becomes `image/png`), and that is not modelled.
- JavaScript strings are sequences of `char`. `charCodeAt` is the character's code, and UTF-16 surrogate pairs are not modelled. `atob` only produces codes below 256 anyway.
- The NodeUtil geometry helpers (NodeUtil.ts:58-102) are not modelled. They use floating-point world coordinates, matrices and private engine fields.
- The bounding-box trim `ImageUtil.getTrim`, which `Case_RuntimeTriming.ts` calls at lines 58 and 99, is not part of this model. Its body is not in the ImageUtil.ts shown here.
- The UI components `Case_RuntimeTriming.ts` and `ClickToShowRes.ts` are left out. They are event wiring and label updates.
- ImageUtil.GetPixelColor: the result is `None` exactly when `slice` yields fewer than four bytes. There the source passes `undefined` components to `cc.color`, for 1 to 3 bytes together with some defined ones, and what `cc.color` builds from them is engine behaviour outside this model. A negative offset is not `None`: as in JavaScript, `slice` counts it back from the end of the buffer.
- NodeUtil.Flipped: defined for any buffer. It treats a buffer that is not a whole number of rows as rows from the front plus a short last block. Only whole-row buffers reach it from `FlipRows`. The lemmas that describe the whole buffer (`FlippedAt`, `FlippedTwice`) assume whole rows; `FlippedAppend` and `FlippedAtMirror` ask for whole rows only in front of the split, and `FlipStep` asks nothing of the length.
- JavaScript numbers are modelled as `real` for node sizes and for `x` and `y` in `getPixelColor`, and as `int` for indices. NaN and ±Infinity are not modelled: in the source, `Math.floor(NaN)` gives a NaN index, which `slice` reads as 0, and a colour with `undefined` components comes back.
