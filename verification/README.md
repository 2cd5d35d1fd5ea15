# VideoCapture: a verified model of the frame readers and the format dispatcher

VideoCapture gives animated images, video files, webcams and stream URLs one
`read()` call: each call returns `(True, frame)` with the frame in BGR order, or
`(False, None)` once the pass is over. This project models the dispatcher of
`VideoCapture.py` and its three animated-image readers; the `cv2.VideoCapture`
readers it builds for video files, webcams and URLs appear only as tags:

- `Dispatch` models the `VideoCapture(file_path)` wrapper. It splits off the extension
  (the text after the last `.`, or the whole path when there is no dot). It then tries
  `webp`, `gif` and `png`, the six video extensions, `isdigit()` (a webcam number),
  and finally a stream URL. The result is the tag of the reader the wrapper builds
  (`Webp`, `Gif`, `Png`, `VideoFile`, `Webcam(n)` or `Url`) together with its argument.
- `Text` models the string operations this relies on: `str.split`, its inverse
  `join`, `isdigit` and `int` on a digit string.
- `Frames` holds the frame model. A frame is a sequence of three-channel 8-bit
  pixels. `cv2.cvtColor(..., COLOR_RGB2BGR)` is the swap of the first and third
  channel.
- `Webp` models `WebpFrames`, the lazy reader. Its state is the seek position of the
  open container (`img.tell()`), and each `read` seeks one frame on and decodes it.
- `Eager` models `GifFrames` and `PngFrames` with one class, `EagerFrames`, because
  the two behave identically (`GifFrames.read` binds the converted frame before returning it, `PngFrames.read` returns it directly). The whole file is decoded into `self.frames`, which
  `read` hands out by `self.index`.

The decoder (PIL with `ImageSequence`, then numpy) is a parameter. A file is given as
the sequence of frames it decodes to, each already converted to RGB. Every opening of
the same file is assumed to decode to the same frames.

The readers are modelled as the code behaves. Two facts in the code show what a
reader is evidently meant to do: `__len__` reports `n_frames` (lines 28-29), and
`WebpFrames.__iter__` seeks back to frame 0 (lines 14-16). So a pass should yield as
many frames as the length, and re-iterating should restart the pass. The code does
neither:

- `WebpFrames` never returns frame 0. A fresh reader yields `n_frames - 1` frames,
  while `__len__` reports `n_frames`.
- `GifFrames.__iter__` and `PngFrames.__iter__` decode the file again but leave
  `self.index` where it was. After a full pass, re-iterating yields nothing.

The classes keep this behaviour. Corrected reads are modelled beside them (see
"## Findings").

## Model

| member | source | states |
|---|---|---|
| `Text.Split` | VideoCapture.py:116 | `split('.')` gives one piece more than there are dots; no piece contains a dot; and a dot-free string splits into itself alone |
| `Text.SplitThenJoin` | VideoCapture.py:116 | joining the pieces of a split with the separator gives back the original string |
| `Text.JoinThenSplit` | VideoCapture.py:116 | splitting a join of separator-free pieces gives back exactly those pieces (split and join are inverses) |
| `Text.SplitAfterPiece` | VideoCapture.py:116 | a separator-free piece followed by the separator splits off as the first piece |
| `Text.LastPieceIsSuffix` | VideoCapture.py:116 | the last piece of a split (`[-1]`) is a suffix of the string; it is the whole string exactly when the string holds no separator, and otherwise a separator comes right before it |
| `Text.IsDigits` | VideoCapture.py:140 | `str.isdigit()` over ASCII: a digit string is non-empty and has no dot, so it is its own extension |
| `Text.DecimalValue` | VideoCapture.py:141 | `int(s)` of a k-digit string is below 10^k |
| `Text.DecimalString` | VideoCapture.py:141 | the numeral of a number is a non-empty digit string without a leading zero |
| `Text.DecimalRoundTrip` | VideoCapture.py:141 | `int(str(n)) == n` |
| `Text.LeadingZero` | VideoCapture.py:141 | a leading zero does not change the value `int` gives |
| `Dispatch.Extension` | VideoCapture.py:116 | the extension is dot-free and a suffix of the path; it is the whole path exactly when the path has no dot, and otherwise the last dot comes right before it |
| `Dispatch.VideoCapture` | VideoCapture.py:115-149 | a webcam result comes only from an all-digit path, with its decimal value as the index; every other result carries the path unchanged |
| `Dispatch.ExtensionAfterLastDot` | VideoCapture.py:116 | for any stem and any dot-free tail, the extension of `stem.tail` is the tail |
| `Dispatch.AnimatedExtensionWins` | VideoCapture.py:119-131 | any path ending in `.webp`, `.gif` or `.png` gets the matching animated reader, whatever its stem (so the webcam test never sees `0.gif`) |
| `Dispatch.VideoExtensionGivesFile` | VideoCapture.py:134-135 | any path ending in one of mp4, avi, mpeg, wmv, asf, mov opens as a video file |
| `Dispatch.BareVideoExtensionGivesFile` | VideoCapture.py:116-135 | a path that is only a video extension, such as `"mp4"`, has no dot, is its own extension and opens as a video file |
| `Dispatch.WebcamIffDigits` | VideoCapture.py:140-141 | the webcam branch is taken if and only if the path is a non-empty digit string, and the camera index is then its decimal value |
| `Dispatch.UrlIsCatchAll` | VideoCapture.py:145-146 | the URL branch is taken if and only if the extension is not one of the nine known ones and the path is not a digit string |
| `Dispatch.ClassificationOrder` | VideoCapture.py:118-147 | each known extension names its own reader (`webp`, `gif` and `png` their animated readers, the six video extensions the video-file reader); only when the extension is unknown does the digit test choose between webcam and URL |
| `Dispatch.WebcamNumeral` | VideoCapture.py:140-141 | the decimal numeral of n, with or without one leading zero, opens webcam n |
| `Dispatch.ExampleGifWithDigitStem` | VideoCapture.py:124-125 | `"0.gif"` opens as a GIF, not as webcam 0 |
| `Dispatch.ExampleWebp` | VideoCapture.py:119-120 | `"icon.webp"` opens as WebP |
| `Dispatch.ExampleBareExtension` | VideoCapture.py:116-125 | the dot-free path `"gif"` is its own extension and opens as a GIF |
| `Dispatch.ExampleVideoFile` | VideoCapture.py:134-135 | `"clip.mp4"` opens as a video file |
| `Dispatch.ExampleCaseSensitive` | VideoCapture.py:124-147 | `"a.GIF"` is not a GIF: the comparison is case-sensitive and it falls through to the URL branch |
| `Dispatch.ExampleDecimalPoint` | VideoCapture.py:116-147 | `"1.5"` has extension `"5"` and fails `isdigit`, so it is a URL |
| `Dispatch.ExampleUrl` | VideoCapture.py:145-146 | `"rtsp://h/feed"` is a URL |
| `Dispatch.ExampleEmpty` | VideoCapture.py:140-146 | `""` is not a digit string and becomes a URL |
| `Dispatch.ExampleWebcamZero` | VideoCapture.py:140-141 | `"0"` opens webcam 0 |
| `Frames.RgbToBgr` | VideoCapture.py:21 | the RGB-to-BGR conversion keeps the frame's size and exchanges the first and third channel of every pixel, keeping the middle one |
| `Frames.RgbToBgrTwice` | VideoCapture.py:65 | converting twice gives back the original frame, so the conversion loses nothing |
| `Frames.ConvertedFromIsSuffix` | VideoCapture.py:61-66 | what `read` hands out (lines 106-109 likewise) from stored position i to the end is n - i frames, the j-th being frame i + j converted |
| `Webp.RemainingSkipsCurrent` | VideoCapture.py:19-21 | from seek position c, repeated reads yield exactly frames c+1 .. n-1 converted, never the frame the container is on |
| `Webp.FreshReaderSkipsFirstFrame` | VideoCapture.py:11-23 | a reader at position 0 over n >= 1 frames yields n - 1 frames, frames 1 .. n-1 in order |
| `Webp.WebpFrames.constructor` | VideoCapture.py:9-12 | a new reader is positioned on frame 0 with `index` 0 |
| `Webp.WebpFrames.Iter` | VideoCapture.py:14-16 | `__iter__` seeks back to frame 0 and leaves `index` as it was; position 0 is where the constructor leaves a fresh reader |
| `Webp.WebpFrames.Next` | VideoCapture.py:18-23 | `__next__` succeeds iff the position is below n - 1, and then moves the position up by exactly one and returns that frame converted; otherwise it returns `(False, None)` and changes nothing (exhaustion is idempotent); the position never passes n - 1 |
| `Webp.WebpFrames.Read` | VideoCapture.py:25-26 | `read` behaves exactly as `__next__` |
| `Webp.WebpFrames.Length` | VideoCapture.py:28-29 | `__len__` is `n_frames`, whatever the position |
| `Webp.WebpFrames.ReadCorrected` | VideoCapture.py:12-23 | the corrected read returns frame `index` converted and advances `index`; from `index` i, repeated reads yield frames i .. n-1 |
| `Webp.WebpFrames.IterCorrected` | VideoCapture.py:14-16 | the corrected re-iteration puts both position and `index` back to 0 |
| `Webp.Drain` | VideoCapture.py:161-164 | reading until `(False, None)` yields exactly the remaining frames after the current position and leaves the reader exhausted |
| `Webp.DrainCorrected` | VideoCapture.py:161-164 | with the corrected read, draining yields every frame from `index` on and leaves `index` at n |
| `Webp.FreshPassAsWritten` | VideoCapture.py:9-29 | as written, a fresh reader over n >= 1 frames yields n - 1 frames (frames 1 .. n-1) while its length is n; a pass after `__iter__` yields the same frames again |
| `Webp.FreshPassCorrected` | VideoCapture.py:9-29 | corrected, a fresh reader yields all n frames in order, as many as its length, and re-iteration yields them again |
| `Eager.EagerFrames.constructor` | VideoCapture.py:33-37 | a new reader holds the whole decoded file with index 0 (`PngFrames`, lines 78-82, is the same) |
| `Eager.EagerFrames.AppendDecoded` | VideoCapture.py:41-43 | the decoding loop appends every frame of the file, in order, to `self.frames` |
| `Eager.EagerFrames.Iter` | VideoCapture.py:39-44 | `__iter__` replaces the list with a fresh full decode and leaves `index` unchanged (lines 84-89 are the same) |
| `Eager.EagerFrames.Next` | VideoCapture.py:46-52 | `__next__` succeeds iff `index` is below the list's length, and then returns the stored frame unconverted and moves `index` up by one; otherwise `(False, None)` with nothing changed; the list is never modified |
| `Eager.EagerFrames.Read` | VideoCapture.py:61-68 | `read` is `__next__` with the frame converted to BGR; from `index` i, repeated reads yield the stored frames i .. n-1 converted (lines 106-111 are the same) |
| `Eager.EagerFrames.Length` | VideoCapture.py:54-59 | `__len__` decodes only when the list is empty, otherwise leaves it as it is, and reports the number of frames in the file (lines 99-104 are the same) |
| `Eager.EagerFrames.IterCorrected` | VideoCapture.py:39-44 | the corrected `__iter__` decodes afresh and also puts `index` back to 0 |
| `Eager.Drain` | VideoCapture.py:161-164 | reading until `(False, None)` yields exactly the stored frames from `index` on, converted, and leaves `index` at the end |
| `Eager.PassesAsWritten` | VideoCapture.py:33-68 | as written, a fresh reader yields exactly `len` frames (frame j converted at j), `len` is the same before and after the pass, and a pass after `__iter__` yields nothing |
| `Eager.PassesCorrected` | VideoCapture.py:33-68 | corrected, a pass after re-iteration yields the same frames as the first pass |

## Findings

| source | as written | input that shows it | evidently intended | confidence | as-written member | corrected member |
|---|---|---|---|---|---|---|
| VideoCapture.py:18-23 | `__next__` seeks to `tell() + 1` before decoding, so frame 0 is never returned and a fresh reader yields `n_frames - 1` frames while `__len__` reports `n_frames` | an animated WebP of 5 frames: 4 reads succeed, `len` is 5, the first frame is never shown | every frame 0 .. n-1 is returned, as many as `__len__` reports (the unused `self.index` of line 12 suggests a next-frame counter) | medium; not executed | `Webp.FreshPassAsWritten` | `Webp.FreshPassCorrected` |
| VideoCapture.py:39-44 | `__iter__` decodes the file again but leaves `self.index` at the end, so a second pass yields nothing (lines 84-89 likewise) | a GIF of 3 frames read to `(False, None)`, then `iter(cap)` and `cap.read()`: `(False, None)` | re-iteration starts again at frame 0, as `WebpFrames.__iter__` does | medium; not executed | `Eager.PassesAsWritten` | `Eager.PassesCorrected` |

## Left out

- Exceptions from the decoder, which propagate in the source and are not modelled:
  - `Image.open` raises for a missing or non-image file (lines 11, 41, 56); the exception leaves the constructors and `__len__`.
  - A frame that fails to decode raises out of `WebpFrames.read` (line 21) instead of returning `(False, None)`.
  - An exception inside `GifFrames.__iter__` or `PngFrames.__iter__` comes after `self.frames = []` (lines 40-43, 85-88), leaving the list partly filled, so a later `__len__` reports fewer frames. `EagerFrames.Valid` (the list equals the file's frames) rules that state out.
- Decoding by PIL, `ImageSequence` and numpy: a file is given as the sequence of RGB frames it decodes to, and every opening of it decodes to the same frames. Frame width and height are not modelled: a frame is a flat sequence of pixels.
- `cv2.cvtColor` is modelled only as the exchange of the first and third channel.
- The `cv2.VideoCapture` objects built for video files, webcams and URLs, and `CAP_PROP_FRAME_COUNT` (lines 135-146). They wrap a codec, device or network library, so the model represents them only by the dispatcher's tag and argument.
- Dispatch.VideoCapture: does not build the reader objects or open anything. It returns the tag of the reader and the argument that reader would be given.
- Text.IsDigits: counts only the ASCII digits `0`-`9`. Python's `str.isdigit` on line 140 also accepts other Unicode digits. For decimal digits of other scripts, such as `"١"`, the source opens the webcam they denote, while the model gives `Url`. For superscript digits the `int(...)` call on line 141 raises `ValueError`.
- Dispatch.VideoCapture: inherits the ASCII-only digit test of `Text.IsDigits`. It also returns `Webcam(n)` for a digit string of any length, whereas CPython's `int(...)` on line 141 raises `ValueError` for a string of more than 4300 digits (the default `int_max_str_digits` limit).
- Dispatch.VideoCapture: takes a string. A non-`str` argument fails already at `file_path.split('.')` (line 116) with `AttributeError` or `TypeError`. A `str` subclass takes the extension and digit branches as a string does, but fails the `type(file_path) == str` test of line 145, so `cap` is unbound at line 149 and `UnboundLocalError` is raised. Neither case is modelled.
- The `print` diagnostics (lines 121, 126, 131, 137, 142, 147). The `__len__` calls made inside them change no state once the list is filled, which `Eager.EagerFrames.Length` states.
- The `apng` import in the `PngFrames` class body (lines 72-76). When `apng` is not installed it raises `ImportError` while the module is loaded, so the whole module, the dispatcher included, cannot be imported; when it is installed nothing happens. This is load-time dependency handling, not reader logic. `PngFrames` and `GifFrames` are otherwise the same, so `EagerFrames` stands for both.
- The lifetime of file handles (`with Image.open(...)`) and the display parts of the demo loop (`imshow`, `waitKey`, the `q` key, lines 152-171). Only its read-until-false loop is modelled, as `Webp.Drain` and `Eager.Drain`.
- Eager.EagerFrames.Next: returns the stored frame as a value. In the source `__next__` returns the stored numpy array itself (lines 48-50, 93-95), so a caller that mutates it changes `self.frames`; this aliasing is not modelled. `read` is not affected, because `cvtColor` builds a new array.
- Python's iteration protocol. `Iter` models the state change of `__iter__` but not its returning `self`. `__next__` signals the end with `(False, None)` and never raises `StopIteration`, and the model does not go into what a `for` loop over a reader would then do.
- WebP containers with no frames: PIL never opens one. The model allows them, and then every read fails.
