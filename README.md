# Tello video stream: marker-detection counter

A Dafny model of the logic of `stream.py` that belongs to the program itself
rather than to OpenCV: the `Tello` session's marker-detection counter, the
console lines `readAruco` prints for every frame in which the ArUco detector
finds markers, and the halving of the frame dimensions in `recv`.

The session keeps `detection_count` (starting at 0) and `last_detected_ids`
(starting empty). For each frame the detector either reports no markers
(`ids is None`) or a list of ids, possibly with repeats. A frame without
markers changes nothing. A frame with markers adds to the count the number of
its distinct ids that are not in `last_detected_ids`, replaces
`last_detected_ids` with its distinct ids, prints one
`Detected ArUco marker ID: <id>` line per entry of the list and then one
`Total detections: <count>` line. A frame without markers does not clear
`last_detected_ids`: a marker is counted again only if a frame *with*
detections that lacked it came in between.

Files:

- `wrappers.dfy` — module `Wrappers`: `Option`, used for the detector's
  "no markers" answer and for parse results.
- `decimal.dfy` — module `Decimal`: the decimal text Python's f-strings give
  an `int`, and a parser that reads it back.
- `detections.dfy` — module `Detections`: the counter as pure functions
  (`Step`, `Replay`), an independent reading of the count as a sum over frames
  (`LastIds`, `Arrived`, `Arrivals`) and per marker (`Counted`,
  `CountedOver`), and the lemmas that tie them together.
- `stream.dfy` — module `Stream`: class `Tello` with the two counter fields,
  `ReadAruco` and the frame loop `Recv`; the console lines (`Report`,
  `Render`, `ParseReport`, `Announce`, `Transcript`); `HalfDimension`.

`Tello` carries a ghost `history` of every detector answer it has seen, and
its invariant `Valid()` says that the two fields are those of `Replay` over
that history; the lemmas about `Replay` therefore apply to every session.

Three consequences of the code are worth spelling out:

- A frame without markers does not clear `last_detected_ids` (stream.py:45),
  so a marker counts again only after a frame *with* detections that lacked
  it (`Reappearance`, `PresentThroughoutCountedOnce`,
  `BlankFramesChangeNothing`).
- A marker line is printed for every entry of `ids`, repeats and already-known
  ids included (stream.py:59-60); `Announce` and `ReadAruco` state that.
- A frame whose height or width is below 2 halves to a zero dimension; the
  resize then raises (stream.py:81), the catch-all handler (stream.py:91-92)
  abandons the iteration, and `readAruco` never sees the frame. `Recv` skips
  such frames the same way.

## Model

| member | source | states |
|---|---|---|
| `Stream.Tello.constructor` | stream.py:28-29 | a fresh session has count 0, no last ids and an empty history, and satisfies the counter invariant |
| `Stream.Tello.ReadAruco` | stream.py:45-61 | with no markers the count, the last ids and the history's replay are unchanged and nothing is printed; with markers the count grows by exactly the number of distinct ids not in the old last-id set, the last-id set becomes the frame's distinct ids, and the lines are one marker line per entry of `ids` in order (repeats included) followed by one total line carrying the updated count; the invariant tying the fields to the replayed history is kept |
| `Stream.Tello.Recv` | stream.py:69-92 | over a series of read attempts, failed reads are skipped; every frame read whose halved height and width are both non-zero is halved and handed to `ReadAruco` in order, while smaller frames are dropped as the failing resize makes the program do, so the history grows by exactly the detector answers of those frames, the sizes are their halved dimensions and the output is the transcript of those answers from the starting counter |
| `Stream.Announce` | stream.py:59-61 | the printed lines for a frame are one `Detected ArUco marker ID` line per entry of `ids`, in order and with repeats, then exactly one `Total detections` line with the given total |
| `Stream.ResizableIffAtLeastTwo` | stream.py:76-81 | a read frame survives the resize exactly when its height and width are both at least 2; otherwise a halved dimension is 0 and the resize fails |
| `Stream.HalfDimension` | stream.py:76-78 | the halved dimension r of a non-negative dimension d satisfies 2r <= d < 2r + 2, i.e. it is d / 2 rounded down |
| `Stream.ParseRender` | stream.py:60-61 | every printed line reads back as the report it was printed for, so a marker line is never mistaken for a total line and no two ids or totals print alike |
| `Stream.TranscriptEndsWithCount` | stream.py:53-61 | once any frame had detections, the output is non-empty and its last line is the total line carrying the current running count |
| `Stream.ThreeFrameScenario` | stream.py:45-61 | frames with ids [3, 7], [7], [3, 7] print two marker lines and total 2, one marker line and total 2, two marker lines and total 3 |
| `Decimal.NatToString` | stream.py:60-61 | the text of a non-negative int is a non-empty string of digits that starts with 0 only for 0 |
| `Decimal.NatToStringRoundTrip` | stream.py:60-61 | the digits written for a non-negative int have that int as their value |
| `Decimal.IntToStringRoundTrip` | stream.py:60-61 | parsing the text printed for any int, negative ones included, gives that int back |
| `Decimal.IntToStringInjective` | stream.py:60-61 | two ints printed alike are equal |
| `Detections.ReplayIsArrivals` | stream.py:49-56 | after any series of frames the counter's count is the sum over the frames of the number of distinct ids each frame brings that were not in the latest earlier frame with detections, and its last-id set is the ids of the latest frame with detections |
| `Detections.LastIdsIsLatestDetection` | stream.py:45-56 | the remembered ids are those of the latest frame with detections, whatever frames without detections follow it |
| `Detections.LastIdsOfBlank` | stream.py:28-45 | while no frame had detections, no ids are remembered |
| `Detections.ReplayAppend` | stream.py:45-56 | running two series of frames one after the other is running their concatenation |
| `Detections.CountNeverDecreases` | stream.py:53 | whatever frames follow, the count is never smaller than before them |
| `Detections.CountMonotoneAlongRun` | stream.py:53 | along one session the count after a prefix of the frames is at most the count after any longer prefix |
| `Detections.BlankFramesChangeNothing` | stream.py:45 | frames in which the detector finds nothing leave the count and the remembered ids as they were |
| `Detections.BlankCountsNothing` | stream.py:45 | frames without detections newly bring no marker |
| `Detections.RepeatAddsNothing` | stream.py:52-56 | a frame with detections right after another adds nothing exactly when its ids are all among the other's ids (in particular when it shows the same ids again) |
| `Detections.IdSetSize` | stream.py:49 | a frame has at most as many distinct ids as entries |
| `Detections.FrameAddsAtMostDistinctIds` | stream.py:49-53 | a frame adds at most its number of distinct ids, which is at most its number of entries, so repeated ids in a frame count once |
| `Detections.PresentThroughoutCountedOnce` | stream.py:45-56 | a marker present in every frame with detections is newly brought exactly once if any frame had detections and never otherwise, however many frames there are |
| `Detections.Reappearance` | stream.py:52-56 | a marker seen, then missing from a frame with detections, then seen again is newly brought twice, whatever frames without detections lie between |
| `Detections.CountedOverStep` | stream.py:52-53 | one more frame raises the per-marker sum by the number of markers it newly brings |
| `Detections.CountIsSumOverMarkers` | stream.py:49-56 | the running count equals the sum, over every marker that ever appeared, of the number of frames that newly brought it |

## Left out

- OpenCV: opening the UDP video source, reading and decoding frames, the
  grayscale conversion, marker detection itself, drawing the markers,
  overlaying the count text, resizing, displaying and `waitKey`. The model
  takes, per frame read, its height, its width and the detector's answer as
  inputs (`Stream.Read`).
- The network address and the socket import: network I/O.
- The worker thread, the unsynchronised `_running` flag and `terminate()`:
  `Recv` runs over a finite series of read attempts, and the end of that
  series stands for the stop flag being cleared. Concurrency and releasing
  the video source are not modelled.
- The console loop that waits for `bye` or a keyboard interrupt: interactive
  I/O.
- The `except Exception: print(err)` around each iteration: it only swallows
  errors raised inside OpenCV. Its one effect on the counter, dropping a frame
  that halves to a zero dimension, is modelled; other OpenCV failures and the
  printed error text are not.
- The float division in `int(height / 2)`: dimensions are non-negative
  integers, for which it equals integer division rounding down (rounding of
  doubles above 2^53 is not modelled).
- The printed text of the welcome banner and of the exception messages.
