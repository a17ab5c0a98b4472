/**
 * AquaFun's frame loop (app.py): read frames until the capture runs out,
 * run the detector on every fifth frame, write the latest annotated frame
 * (or the raw frame while nothing has been annotated yet), and report progress.
 *
 * The opened video is the sequence of its frames, the detector (YOLO followed
 * by `plot()`) is the function `annotate`, and what the loop hands to the video
 * writer and to the progress bar is returned as the sequences `written` and
 * `progress`.
 */
module App {
  import opened FrameLoop

  datatype Option<T> = None | Some(value: T)

  /**
   * `cap.read()` on a capture positioned at frame `pos`: the next frame, or
   * nothing once the stream is exhausted.
   */
  function Read(video: seq<Frame>, pos: nat): (r: Option<Frame>)
    ensures r.Some? <==> pos < |video|
    ensures r.Some? ==> r.value == video[pos]
  {
    if pos < |video| then Some(video[pos]) else None
  }

  /** The frame handed to the writer: the cached annotation if there is one, else the raw frame. */
  function FrameToWrite(cache: Option<Frame>, raw: Frame): (r: Frame)
    ensures cache.Some? ==> r == cache.value
    ensures cache.None? ==> r == raw
  {
    if cache.Some? then cache.value else raw
  }

  /**
   * The frame loop over `video`. `totalFrames` is the frame count the
   * container announces; it must not be below the number of frames actually
   * read, or the progress ratio would exceed 1 (which Streamlit's progress bar
   * refuses) or divide by zero. `detected` logs the frames given to the detector.
   */
  method DetectVideo(video: seq<Frame>, annotate: Frame -> Frame, totalFrames: nat)
    returns (written: seq<Frame>, progress: seq<Ratio>, frameId: nat, ghost detected: seq<Frame>)
    requires |video| <= totalFrames
    ensures frameId == |video|
    ensures written == Annotated(video, annotate, |video|)
    ensures detected == Sampled(video, |video|)
    ensures progress == Progression(|video|, totalFrames)
  {
    var pos: nat := 0;  // the capture's read position
    written, progress, detected := [], [], [];
    frameId := 0;
    var annotatedFrame: Option<Frame> := None;

    while true
      invariant pos == frameId <= |video|
      invariant annotatedFrame == if frameId == 0 then None
                                  else Some(annotate(video[LastSample(frameId - 1)]))
      invariant written == Annotated(video, annotate, frameId)
      invariant detected == Sampled(video, frameId)
      invariant progress == Progression(frameId, totalFrames)
      decreases |video| - pos
    {
      var frame := Read(video, pos);
      if frame.None? {
        break;
      }
      pos := pos + 1;

      if frameId % 5 == 0 {
        // `detected` grows exactly here, beside the one detector call.
        annotatedFrame := Some(annotate(frame.value));
        detected := detected + [frame.value];
      }

      if frameId > 0 {
        LastSampleStep(frameId);
      }
      // The raw-frame fallback of the write is never taken: frame 0 is always sampled.
      assert annotatedFrame == Some(annotate(video[LastSample(frameId)]));
      written := written + [FrameToWrite(annotatedFrame, frame.value)];

      frameId := frameId + 1;
      assert Ratio(frameId, totalFrames).InUnitRange();
      ProgressionSnoc(frameId - 1, totalFrames);
      progress := progress + [Ratio(frameId, totalFrames)];
    }
  }
}
