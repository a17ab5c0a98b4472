# AquaFun frame loop, modelled in Dafny

AquaFun is a small Streamlit demo. A user uploads an aquarium video. The app
runs a YOLO fish detector on every fifth frame and draws the detections into the
frame. Between samples it keeps writing the latest annotated frame, and it
writes the result out as an MP4 file. Everything around that loop is user
interface, model loading and video I/O. The loop (app.py:68-89) is the only
logic in the program, and it is what this project models and proves things
about.

- `frame_loop.dfy`, module `FrameLoop`, holds the specification:
  - the sampling rule (`IsSampled`, `LastSample`);
  - the frames written after `n` frames have been read (`Annotated`);
  - the frames handed to the detector (`Sampled`);
  - the progress ratios shown (`Ratio`, `Progression`);
  - lemmas stating what the source promises about each of them.
- `app.dfy`, module `App`, holds the loop itself. `DetectVideo` is a `while`
  loop that follows the loop in app.py:
  - state: the counter `frameId`, starting at 0, and the one-slot cache
    `annotatedFrame`, starting empty;
  - it reads the next frame and breaks on the first failed read;
  - on `frameId % 5 == 0` it calls the detector and overwrites the cache;
  - it writes the cached frame, or the raw frame if the cache is empty;
  - it increments the counter and reports `frameId / totalFrames`.

The collaborators become values:
- The opened video is the sequence of its frames. A `Frame` is the frame's raw
  bytes. `Read(video, pos)` stands for `cap.read()` on a capture positioned at
  frame `pos`: the next frame, or nothing once the frames run out.
- The detector call `model(frame, imgsz=320, conf=0.5)` followed by
  `results[0].plot()` is an arbitrary function `annotate: Frame -> Frame`.
- The writer and the progress bar become the returned sequences `written` and
  `progress`.
- A ghost sequence `detected` logs the frames given to the detector.

What is proved:
- One frame is written per frame read, in input order.
- Written frame `i` is the annotation of input frame `i - i % 5`. So a sampled
  frame carries its own detections, and every other frame repeats the frame
  before it.
- The raw-frame branch of the write is never taken. The proof is the assertion
  in the loop that the cache holds an annotation at every write.
- The detector runs exactly on frames 0, 5, 10, …: ceil(n / 5) calls for n
  frames.
- The loop ends with `frameId` equal to the number of frames.
- The progress values strictly increase, stay in (0, 1] and end at exactly 1
  if and only if the announced frame count is the real one.

The code does not clamp the progress value. It divides `frame_id` by the container's announced frame count,
and Streamlit's progress bar refuses a value above 1. The model follows the
code: `DetectVideo` requires that the announced count is not below the real
one.

## Model

| member | source | states |
|---|---|---|
| `App.DetectVideo` | app.py:68-89 | The loop reads every frame and stops at the first failed read, with `frameId` equal to the frame count. The writer receives exactly `Annotated(video, annotate, n)`. The detector receives exactly `Sampled(video, n)`. The progress bar receives `Progression(n, totalFrames)`. The write choice at app.py:82-85 is `FrameToWrite(annotatedFrame, frame)`: the cached annotation if there is one, else the raw frame. The assertion before the write shows the cache holds `annotate(video[LastSample(frameId)])` at every write, so the raw-frame branch is never taken. |
| `FrameLoop.IsSampled` | app.py:77 | The test `frame_id % 5 == 0`: a frame is sampled exactly when its index is a multiple of 5. |
| `FrameLoop.LastSample` | app.py:77-83 | The index whose annotation is in the cache at frame `i`: a sampled index not after `i`, with no sampled index between it and `i`. |
| `FrameLoop.Annotated` | app.py:71-87 | Each read adds exactly one written frame, so `n` reads give `n` written frames. Nothing is dropped or duplicated. |
| `FrameLoop.AnnotatedAt` | app.py:77-85 | Written frame `i` is the detector's annotation of input frame `i - i % 5`. It is never an unannotated raw frame. |
| `FrameLoop.AnnotatedPrefix` | app.py:83 | Reading more frames only appends to the output. The frames written for the first `m` reads never change. |
| `FrameLoop.AnnotatedSteps` | app.py:77-83 | At a sampled index the written frame is the annotation of that same input frame. At any other index it equals the previously written frame. |
| `FrameLoop.AnnotatedUnique` | app.py:77-85 | Those two rules determine the output completely: any sequence of the right length that obeys them equals `Annotated`. |
| `FrameLoop.HeldWithinBlock` | app.py:77-83 | Between two sample points the written frame stays the same. If no index in (i, j] is sampled, outputs `i` and `j` are equal. |
| `FrameLoop.Sampled` | app.py:77-78 | The detector is called at most once per frame read. |
| `FrameLoop.SampledCount` | app.py:77-78 | For `n` frames the detector is called (n + 4) / 5 times. |
| `FrameLoop.SampledAt` | app.py:77-78 | The j-th detector call is on input frame `5 * j`, which lies below the frame count. So the detector sees frames 0, 5, 10, … and no others. |
| `FrameLoop.Progression` | app.py:87-88 | One progress report is made per frame read. Report `k` is the `Ratio(k + 1, total)`, the pair `frame_id / total_frames` that app.py:88 divides; `Ratio.Value` is that quotient. |
| `FrameLoop.ProgressInUnitRange` | app.py:64-88 | If the announced frame count is at least the real one, every report is a valid progress value in (0, 1]. |
| `FrameLoop.ProgressIncreasing` | app.py:87-88 | Each progress value is strictly larger than every earlier one. |
| `FrameLoop.ProgressEndsAtOne` | app.py:64-88 | The last progress value is exactly 1 if and only if the announced frame count equals the number of frames read. |

## Left out

- Streamlit page setup, CSS, header and hero markup, the file uploader, the progress text, `st.video`, `st.error`/`st.stop` and the download link (app.py:11-41, 54-55, 65-66, 89, 98-108). These are presentation only. The progress text shows the same `frameId/totalFrames` pair that `Ratio` holds.
- YOLO model loading and inference (app.py:44, 78-79). They become the arbitrary function `annotate`. An exception raised by the detector would abort the script. The model does not cover that, and it assumes the detector gives the same result for the same frame.
- OpenCV capture and writer setup: codec, FPS, width and height, the open-failure check, and `release` (app.py:52-62, 92-93). A failed open stops the script before the loop. A read that fails part-way through a file ends the loop exactly like the end of the stream, so the modelled video is the frames before the first failed read.
- The temporary upload file, `time.sleep`, and reading the output back for download (app.py:48-49, 59, 96, 104-107). These are filesystem I/O.
- `DetectVideo`: requires the announced frame count `totalFrames` to be at least the number of frames read. Below that, the source divides by zero or hands Streamlit a progress value above 1, which Streamlit refuses.
- `FrameLoop.Ratio`: progress is the exact pair `frameId / totalFrames`, not the floating-point quotient Python computes. Rounding is not modelled.
