# VisionPi IoT server: a verified model of its request-handling logic

VisionPi is a set of small Python services around a camera and an LED:

- a Flask relay that takes JPEG frames behind a shared secret and streams the latest one as MJPEG (`webcam_server.py`);
- a FastAPI endpoint that stores uploaded frames per camera (`webcam/server.py`);
- two FastAPI services (`main.py`, `fast/server.py`) with an LED rule, a websocket that saves incoming frames, and, in `main.py`, a speech-to-text endpoint.

This project models the logic these services own. The libraries they call are inputs to the model: image decoding, file writes, the clock, the speech model and HTTP delivery.

Modules, one per component:

| file | module | models |
|---|---|---|
| Common.dfy | `Common` | bytes, `Option`, ASCII encoding of header text (`str.encode("ascii")`) |
| Decimal.dfy | `Decimal` | `str(n)` for naturals, its parse-back, and `{n:04d}` zero padding |
| MjpegRelay.dfy | `MjpegRelay` | `webcam_server.py`: the ingest gate (`IngestStatus`), the frame cache (class `FrameRelay`), part framing of the `multipart/x-mixed-replace` stream (`Part`, read back by `ParsePart`), and the viewer loop (`Stream`) |
| FrameUpload.dfy | `FrameUpload` | `webcam/server.py`: the camera-id sanitiser, the output path and the upload response |
| FrameSocket.dfy | `FrameSocket` | the `/ws_frames` receive loop. It is written the same way in `main.py` (lines 91-130) and `fast/server.py` (lines 39-78), so it is modelled once. |
| VisionApi.dfy | `VisionApi` | `main.py`: the exact-value LED rule and the `/transcribe` response with its segment join |
| FastApi.dfy | `FastApi` | `fast/server.py`: the threshold LED rule and the `{"result", "led"}` response |

How the model is shaped:

- **Ingest.** `FrameRelay.Ingest` works in place, as the source does. It runs the checks as a chain of early returns and reassigns the cached frame only on success. Its postcondition ties the status to the pure function `IngestStatus` and gives the new cache. The class invariant `Valid` says that a cached frame always passed every check.
- **Viewer loop.** `Stream` is driven by the sequence of cache values the loop reads at each wake-up. An empty cache emits nothing. A cached frame emits `Part(frame)`.
- **Websocket.** A session is a finite sequence of `Message`s:
  - `Undecodable`, or
  - `Decoded(width, height, timestamp, save)`, where `save` records whether the write raised.

  `Serve` is the receive loop. It is proved equal to the specification functions `Replies` and `FrameCount`.

## Model

| member | source | states |
|---|---|---|
| `MjpegRelay.IngestStatus` | webcam_server.py:93-107 | the ingest endpoint answers one of 204, 400, 401, 413, 415 |
| `MjpegRelay.IngestStatusOrder` | webcam_server.py:93-107 | the first failing check decides, in a fixed order. 401 iff a token is configured and the header (missing reads as "") differs. 400 iff the token passes and the body is empty. 413 iff the token passes and the body exceeds 2 MiB. 415 iff all earlier checks pass and the JPEG markers are missing. 204 iff every check passes |
| `MjpegRelay.TokenCheckComesFirst` | webcam_server.py:93-95 | a refused token gives 401 whatever the body is, even an empty or oversized one |
| `MjpegRelay.EmptyTokenDisablesAuth` | webcam_server.py:94 | with an empty configured token no request is answered 401 |
| `MjpegRelay.SizeCapIsInclusive` | webcam_server.py:102-103 | a well-marked body of exactly 2·1024·1024 bytes is accepted, and one byte more gives 413 |
| `MjpegRelay.HasJpegMarkers` | webcam_server.py:106-107 | a body that starts with FF D8 and ends with FF D9 has at least 4 bytes: the two markers cannot overlap |
| `MjpegRelay.AcceptedFrameBounds` | webcam_server.py:99-107 | every body answered 204 is between 4 bytes and 2 MiB long |
| `MjpegRelay.DefaultTokenRefusesMissingHeader` | webcam_server.py:10 | with the default token "change-me", a request without an `X-Token` header is answered 401, whatever its body |
| `MjpegRelay.FrameRelay.constructor` | webcam_server.py:10-17 | the relay starts with the configured token and no cached frame |
| `MjpegRelay.FrameRelay.Ingest` | webcam_server.py:91-116 | the status is `IngestStatus` of the token, header and body. On 204 the cache holds exactly the body. On any other status the cache is unchanged. The cache invariant (only acceptable frames are cached) is kept |
| `MjpegRelay.FrameRelay.NextPart` | webcam_server.py:63-81 | with no cached frame a wake-up yields no part. Otherwise it yields exactly `Part` of the cached frame, that frame passed every ingest check, and the part reads back as exactly that frame |
| `MjpegRelay.Part` | webcam_server.py:77-81 | a part is the header, then the frame bytes unaltered, then two closing bytes |
| `MjpegRelay.PartLayout` | webcam_server.py:77-81 | a part is the ASCII bytes of `--frame CRLF Content-Type: image/jpeg CRLF Content-Length: <decimal length> CRLF CRLF`, then the frame bytes unaltered, then CRLF |
| `MjpegRelay.PartRoundTrip` | webcam_server.py:77-81 | reading a part back (fixed header, Content-Length, exactly that many bytes, CRLF) yields the original frame for every frame |
| `MjpegRelay.PartDelimiters` | webcam_server.py:77-81 | every part starts with the dash-boundary `--frame` and ends with CRLF |
| `MjpegRelay.ConsecutivePartsDelimited` | webcam_server.py:77-81 | between two consecutive parts the stream holds CRLF `--frame`, the delimiter of section 5.1.1 of RFC 2046 |
| `MjpegRelay.BoundaryAgreesWithMediaType` | webcam_server.py:54-85 | the boundary is a valid RFC 2046 boundary and is the one the response media type announces |
| `MjpegRelay.Stream` | webcam_server.py:56-81 | the viewer loop emits, in order, one part per observed cached frame and nothing for an empty cache |
| `MjpegRelay.NoFrameNoPart` | webcam_server.py:66-69 | while no frame has been cached the viewer receives no part |
| `MjpegRelay.EmittedPartsCarryObservedFrames` | webcam_server.py:63-81 | every part a viewer receives reads back as a frame the loop observed in the cache |
| `MjpegRelay.StreamCarriesAcceptableFrames` | webcam_server.py:63-81 | when every observed cache value passed the ingest checks (as the cache invariant guarantees), every part a viewer receives reads back as an acceptable frame |
| `Decimal.Digits` | webcam_server.py:80 | a decimal rendering is non-empty, all digits, and starts with 0 only when it is "0" |
| `Decimal.DigitsInjective` | webcam_server.py:80 | distinct frame lengths are announced by distinct Content-Length texts |
| `Decimal.ValueOfDigits` | webcam_server.py:80 | reading the rendering of n back gives n |
| `Decimal.ZeroPad` | main.py:115 | `{n:04d}` is all digits and at least as long as both the width and the plain rendering of n |
| `Decimal.ZeroPadShape` | main.py:115 | `{n:04d}` is at least 4 characters, ends with the whole rendering of n (never truncated) and is zeros before it |
| `Decimal.ZeroPadValue` | main.py:115 | the padded counter still denotes n |
| `Decimal.ZeroPadInjective` | fast/server.py:63 | distinct counters never share a padded rendering |
| `FrameUpload.KeepAllowed` | webcam/server.py:41 | the filter keeps only ASCII letters, digits, `-` and `_`, and is never longer than its input |
| `FrameUpload.SanitizeCameraId` | webcam/server.py:41 | the sanitised id is never empty and every character is an ASCII letter, digit, `-` or `_` |
| `FrameUpload.KeepAllowedIsSubsequence` | webcam/server.py:41 | the kept characters are a subsequence of the input: order kept, nothing inserted |
| `FrameUpload.KeepAllowedConcat` | webcam/server.py:41 | the filter works character by character: filtering `s + t` is filtering `s` then `t` |
| `FrameUpload.KeepAllowedFixesAllowed` | webcam/server.py:41 | a string of allowed characters passes the filter unchanged |
| `FrameUpload.KeepAllowedUnchangedIff` | webcam/server.py:41 | the filter leaves a string unchanged iff all its characters are allowed |
| `FrameUpload.SanitizeIsSubsequenceOrDefault` | webcam/server.py:41 | the result is either "default" with nothing kept by the filter, or exactly the kept characters, a subsequence of the input. A kept result can also read "default", for example from the input "default!" |
| `FrameUpload.SanitizeKeepsCleanIds` | webcam/server.py:41 | a non-empty id of allowed characters passes through unchanged |
| `FrameUpload.SanitizeIdempotent` | webcam/server.py:41 | sanitising an already sanitised id returns it unchanged |
| `FrameUpload.SanitizedIdIsOnePathSegment` | webcam/server.py:40-42 | a sanitised id contains no `/` and no `.`, so it is neither `.` nor `..` |
| `FrameUpload.CameraIdField` | webcam/server.py:30 | the `camera_id` form field when it is sent non-empty, and "default" when it is omitted or empty |
| `FrameUpload.TimestampField` | webcam/server.py:31-38 | the `ts_ms` form field when it is sent non-empty. Otherwise it is exactly the plain decimal rendering of the clock in milliseconds (no leading zeros), which denotes the clock |
| `FrameUpload.OutputPath` | webcam/server.py:42-46 | the path is six characters longer than its three parts and ends with ".jpg" |
| `FrameUpload.OutputPathSegments` | webcam/server.py:42-46 | the path is the data directory, `/`, the camera id, `/`, then `ts_ms + ".jpg"` |
| `FrameUpload.UploadFrame` | webcam/server.py:28-58 | the response is ok iff the write did not raise. A raised write answers 500 with its message. A finished write answers 200 |
| `FrameUpload.SavedPathShape` | webcam/server.py:36-46 | a saved frame's path is built from the sanitised id, which is a single non-empty directory name |
| `FrameUpload.OmittedCameraIdIsDefault` | webcam/server.py:30-46 | a missing or empty camera id field gives the same response, with the frame saved under the "default" folder |
| `FrameUpload.DefaultUploadPath` | webcam/server.py:20-46 | with the default data directory and no form fields, the frame is saved as `data/default/<clock ms>.jpg` |
| `FrameSocket.Serve` | main.py:101-125 | the loop's replies and final counter equal `Replies` and `FrameCount` of the received messages |
| `FrameSocket.Replies` | main.py:104-125 | a session sends exactly one reply per received message |
| `FrameSocket.FrameCount` | main.py:101-124 | the counter after a session never exceeds the number of messages |
| `FrameSocket.SessionStep` | main.py:104-125 | one more message appends exactly its own reply, computed from the counter before it, and advances the counter only for a decoded frame |
| `FrameSocket.Reply` | main.py:110-122 | the reply is "ERR: decode failed" iff the message could not be decoded. A failed save answers "ERR: could not save frame (", its error message, then ")" |
| `FrameSocket.OkReply` | main.py:120 | a success reply starts with "OK " and its length is that of the width, height and file name plus 13 characters of fixed text |
| `FrameSocket.FrameFileName` | main.py:114-115 | the file name is "frame_", the timestamp, "_", the counter zero-padded to at least 4 digits, then ".jpg" |
| `FrameSocket.ReplyAt` | main.py:104-125 | reply i is determined by message i and the number of frames decoded before it |
| `FrameSocket.FrameCountCountsDecoded` | main.py:110-124 | after a session the counter equals the number of decodable messages |
| `FrameSocket.CounterStep` | fast/server.py:58-72 | an undecodable message leaves the counter unchanged. A decoded one advances it by exactly one, whether or not the save raised |
| `FrameSocket.FrameCountMonotone` | fast/server.py:72 | the counter never decreases, and it strictly increases past each decoded message |
| `FrameSocket.ReplyKinds` | main.py:110-122 | a reply starts with "OK " iff the frame decoded and saved. Otherwise it starts with "ERR: ". An undecodable message gets exactly "ERR: decode failed" |
| `FrameSocket.OkReplyLayout` | main.py:120 | a success reply is "OK ", width, "x", height (width first), then " (saved <file name>)" |
| `FrameSocket.FrameFileNameInjective` | main.py:114-115 | `frame_<timestamp>_<counter:04d>.jpg` names are equal only for equal timestamp and counter, for timestamps without `_` |
| `FrameSocket.SavedNamesDistinct` | fast/server.py:62-72 | within one session, two decoded frames get different file names |
| `VisionApi.LedState` | main.py:73-79 | the state is one of the three answers, and it is not the refusal iff the value is exactly 1 or exactly 0 |
| `VisionApi.AudioResponse` | main.py:82-84 | the `/audio` answer has the single key "led", whose value is one of the three states |
| `VisionApi.LedRule` | main.py:73-79 | "on" iff the value is exactly 1. "off" iff exactly 0. "not valid just 1 or 0" for every other value |
| `VisionApi.JoinSegments` | main.py:157 | the joined text is as long as all segments plus one space between neighbours. No segments give length 0 |
| `VisionApi.SegmentAt` | main.py:157 | segment i appears unchanged at its offset in the joined text, followed by one space unless it is the last |
| `VisionApi.JoinSegmentsLayout` | main.py:157 | for every list of segments, each one appears unchanged and in order at the offset of the earlier segments plus one space each, with a single space after each but the last. No segments give "" |
| `VisionApi.SplitJoinRoundTrip` | main.py:157 | splitting the joined transcript on spaces gives back the segments, for at least one segment and when no segment holds a space. The empty list joins to "", which splits into one empty piece, not into no pieces |
| `VisionApi.Transcribe` | main.py:144-165 | with no model loaded the answer is the "Model not loaded" error. A raised transcription answers "Transcription failed: " and the message. A transcript is returned iff the model is loaded and transcription succeeded, and its text is the segments joined by single spaces, with the model's language and probability |
| `VisionApi.TranscriptKeepsSegments` | main.py:154-163 | for every list of segments, a successful transcript carries each segment unchanged and in order at its offset, one space after each but the last, and the empty text for no segments, plus the model's language and its probability |
| `FastApi.LedState` | fast/server.py:24 | the LED is "on" or "off", and "off" iff the value is at most 10 |
| `FastApi.AudioResponse` | fast/server.py:21-32 | the answer has exactly the keys "result" and "led". "result" is value × 10. "led" is "on" or "off" |
| `FastApi.LedThreshold` | fast/server.py:24 | the LED is "on" iff value > 10 (strict). A value of 10 gives "off" |
| `FastApi.DeliveryDoesNotMatter` | fast/server.py:26-32 | whether the LED command was delivered or raised, the answer is the same |
| `FastApi.LedMonotone` | fast/server.py:24 | raising the value never turns the LED from "on" to "off" |

## Left out

- The relay's lock, wake-up event, 20 s wait timeout, one-second sleep and 30 fps throttle (webcam_server.py:18-19, 60-61, 68, 72-75, 113). These are concurrency and wall-clock timing. The cache is single-threaded here, and the viewer loop is modelled over the cache values it observes.
- The comment at webcam_server.py:67 promises a 1×1 black JPEG fallback. The code only sleeps and emits nothing, and the model follows the code.
- The `VSTREAM_TOKEN` and `FRAME_SAVE_DIR` environment variables are constructor and function parameters. Their defaults are `DefaultIngestToken` and `DefaultDataDir`.
- VisionApi.Transcribe: the model stops at the dictionary the handler returns. The route declares `response_model=TranscriptionResponse` (main.py:48-51, 133), and FastAPI validates the returned dictionary against it. The error dictionaries at main.py:145 and 165 lack the `text`, `language` and `language_probability` fields, so the framework most likely answers them with a 500 response instead of the error text. That validation is framework behaviour and is not modelled.
- FrameUpload.CameraIdField and FrameUpload.TimestampField follow FastAPI's form handling: a field sent as the empty string counts as omitted and takes its default. The framework's form parsing itself is not modelled.
- Console logging with `print`: the failed LED command at fast/server.py:30, and the disconnect and unexpected-error messages at main.py:127-130 and fast/server.py:75-78. These write to standard output and change no answer or state.
- HTTP routing, Flask `abort` description texts, response headers other than the media type, the HTML index page, CORS middleware and the health endpoints.
- Common.Ascii maps every character to one byte. Python's `encode("ascii")` would raise on non-ASCII text, but the servers only encode fixed ASCII header text and digits.
- FrameUpload.IsAllowed: Python's `str.isalnum` accepts every Unicode letter and digit. The model accepts ASCII letters and digits only, so a non-ASCII letter that Python keeps is dropped here.
- FrameUpload.OutputPath joins with `/` by plain concatenation. pathlib's normalisation is not modelled: a trailing `/` on the data directory, or a client `ts_ms` that contains `/` or starts with `/`, is handled differently there. `ts_ms` is not sanitised by the source, and the model takes it as given.
- The upload's chunked copy loop, `mkdir` and the async file write. Only whether the write raised (and its message) is modelled. `str(int(time.time() * 1000))` is the decimal rendering of a clock parameter in milliseconds.
- In the websocket loop, JPEG decoding (`cv2.imdecode`), `cv2.imwrite`, the date directory, `os.makedirs` and `datetime.now()` are inputs carried by each `Message`. A write that returns False without raising counts as `SaveOk`, as it does in the source.
- The loop ends on disconnect or on any other exception, such as a text frame given to `receive_bytes`. A session is modelled as the finite sequence of binary messages received before that.
- Python floats are modelled as reals. There is no NaN, infinity or rounding, and `value * 10` is exact. In main.py a NaN request value gets "not valid just 1 or 0", which serialises normally; the model has no NaN input for it.
- FastApi.AudioResponse: when `value * 10` is not a finite float (a NaN value, or a finite value above about 1.8e307 in magnitude such as 1e308), fast/server.py:23 and :32 return a non-finite `result`. The framework's JSON encoder refuses non-finite numbers, so the service fails with a 500 instead of answering. The model's answer for those inputs has no counterpart in the source.
- The outgoing `requests.post` LED command in `fast/server.py` is modelled only by whether it was delivered, which the answer ignores.
- Whisper model loading and transcription, the temporary audio file, and the language detection values (taken as given).
- `w.py`, `s.py`, `ui.py`, `streamlet.py`, `server.py`, `client.py`, `webcam_client.py` and `f.py` are not part of this model. They are thin wrappers over speech, UI, websocket-echo, camera-capture and GPU libraries.
- VisionApi.SplitJoinRoundTrip is stated for at least one segment and for segments without spaces of their own. No segments join to "", and `"".split(" ")` is `[""]`, not the empty list. Whisper segment texts often begin with a space, and then the split pieces differ from the segments. `VisionApi.JoinSegmentsLayout` holds for every input, including segments with spaces and the empty list.
