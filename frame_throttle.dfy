/** The webcam frame processor of the live-detection page: a counter that
    sends every tenth frame to the object detector and passes the others
    through unchanged. */
module FrameThrottle {

  /** A bgr24 pixel array, as `frame.to_ndarray(format="bgr24")` yields it. */
  type Pixels = seq<bv8>

  /** A video frame, identified with its bgr24 pixel array: `to_ndarray` reads
      the array out and `VideoFrame.from_ndarray(.., format="bgr24")` builds a
      frame from one. */
  datatype VideoFrame = VideoFrame(bgr: Pixels)

  /** The detector: `model.predict(img, imgsz, conf)[0].plot()`, an opaque
      network that returns the annotated pixel array. Nothing is assumed of it. */
  type Detector = (Pixels, nat, real) -> Pixels

  /** Only every `Stride`-th frame reaches the detector. */
  const Stride: nat := 10
  /** The inference resolution handed to the detector. */
  const InferenceSize: nat := 160
  /** The confidence threshold handed to the detector. */
  const ConfidenceThreshold: real := 0.25

  /** Whether the call that brings the counter to `count` runs the detector. */
  predicate RunsDetector(count: int) {
    count % Stride == 0
  }

  /** The frame `recv` returns on the call that brings the counter to `count`. */
  function Respond(count: int, frame: VideoFrame, detect: Detector): (r: VideoFrame)
    ensures !RunsDetector(count) ==> r == frame
    ensures RunsDetector(count) ==> r.bgr == detect(frame.bgr, InferenceSize, ConfidenceThreshold)
  {
    var img := frame.bgr;
    if RunsDetector(count) then
      VideoFrame(detect(img, InferenceSize, ConfidenceThreshold))
    else
      VideoFrame(img)
  }

  /** The frame numbers among 1..n on which the detector runs, in call order. */
  function DetectedFrames(n: nat): (r: seq<nat>)
    ensures forall i :: 0 <= i < |r| ==> 1 <= r[i] <= n && RunsDetector(r[i])
    ensures forall i, j :: 0 <= i < j < |r| ==> r[i] < r[j]
  {
    if n == 0 then [] else DetectedFrames(n - 1) + (if RunsDetector(n) then [n] else [])
  }

  /** Every multiple of the stride up to n is a detected frame. */
  lemma {:induction false} DetectedFramesComplete(n: nat, k: nat)
    requires 1 <= k <= n && RunsDetector(k)
    ensures k in DetectedFrames(n)
  {
    if k < n {
      DetectedFramesComplete(n - 1, k);
    }
  }

  /** Exactly n / Stride of the first n frames reach the detector. */
  lemma {:induction false} DetectedFramesCount(n: nat)
    ensures |DetectedFrames(n)| == n / Stride
  {
    if n > 0 {
      DetectedFramesCount(n - 1);
    }
  }

  /** Of frames 1..25, only frames 10 and 20 reach the detector. */
  lemma TwentyFiveFrames()
    ensures DetectedFrames(25) == [10, 20]
  {
    assert DetectedFrames(9) == [];
    assert DetectedFrames(19) == [10];
  }

  /** The frames returned by consecutive `recv` calls on a processor whose
      counter stands at `start`, fed `frames` in order. */
  function SessionFrom(start: int, frames: seq<VideoFrame>, detect: Detector): seq<VideoFrame>
    decreases |frames|
  {
    if frames == [] then []
    else [Respond(start + 1, frames[0], detect)] + SessionFrom(start + 1, frames[1..], detect)
  }

  /** The i-th output of a session is the response to frame number start + i + 1. */
  lemma {:induction false} SessionAt(start: int, frames: seq<VideoFrame>, detect: Detector, i: nat)
    requires i < |frames|
    ensures |SessionFrom(start, frames, detect)| == |frames|
    ensures SessionFrom(start, frames, detect)[i] == Respond(start + i + 1, frames[i], detect)
    decreases i
  {
    if i > 0 {
      SessionAt(start + 1, frames[1..], detect, i - 1);
    } else {
      SessionLength(start + 1, frames[1..], detect);
    }
  }

  /** A session returns one frame per frame received. */
  lemma {:induction false} SessionLength(start: int, frames: seq<VideoFrame>, detect: Detector)
    ensures |SessionFrom(start, frames, detect)| == |frames|
    decreases |frames|
  {
    if frames != [] {
      SessionLength(start + 1, frames[1..], detect);
    }
  }

  /** From a fresh processor, every frame whose number is not a multiple of
      the stride comes back pixel for pixel as it went in. */
  lemma PassThrough(frames: seq<VideoFrame>, detect: Detector, i: nat)
    requires i < |frames| && (i + 1) % Stride != 0
    ensures |SessionFrom(0, frames, detect)| == |frames|
    ensures SessionFrom(0, frames, detect)[i] == frames[i]
  {
    SessionAt(0, frames, detect, i);
  }

  /** The processor handed to the video stream: one counter, `frameCount`,
      bumped on every frame. `detectorCalls` records, for the proof only, the
      frame numbers on which the detector was run. */
  class VideoProcessor {
    var frameCount: int
    ghost var detectorCalls: seq<nat>

    ghost predicate Valid()
      reads this
    {
      frameCount >= 0 && detectorCalls == DetectedFrames(frameCount)
    }

    constructor ()
      ensures Valid()
      ensures frameCount == 0 && detectorCalls == []
    {
      frameCount := 0;
      detectorCalls := [];
    }

    /** Handles one frame: counts it, then annotates it when the new count is
        a multiple of the stride, or returns its pixels unchanged. */
    method Recv(frame: VideoFrame, detect: Detector) returns (out: VideoFrame)
      requires Valid()
      modifies this
      ensures Valid()
      ensures frameCount == old(frameCount) + 1
      ensures detectorCalls == old(detectorCalls) + (if RunsDetector(frameCount) then [frameCount] else [])
      ensures out == Respond(frameCount, frame, detect)
      ensures !RunsDetector(frameCount) ==> out == frame
    {
      frameCount := frameCount + 1;
      var img := frame.bgr;
      if frameCount % Stride == 0 {
        detectorCalls := detectorCalls + [frameCount];
        var annotated := detect(img, InferenceSize, ConfidenceThreshold);
        return VideoFrame(annotated);
      }
      return VideoFrame(img);
    }
  }

  /** The video stream driving a fresh processor: it creates one and hands it
      the frames one at a time, in arrival order. */
  method RunSession(frames: seq<VideoFrame>, detect: Detector)
    returns (outs: seq<VideoFrame>, frameCount: int, ghost detections: seq<nat>)
    ensures outs == SessionFrom(0, frames, detect)
    ensures frameCount == |frames|
    ensures detections == DetectedFrames(|frames|) && |detections| == |frames| / Stride
  {
    var p := new VideoProcessor();
    outs := [];
    var i := 0;
    while i < |frames|
      invariant 0 <= i <= |frames|
      invariant p.Valid() && p.frameCount == i
      invariant |outs| == i
      invariant forall j :: 0 <= j < i ==> outs[j] == Respond(j + 1, frames[j], detect)
    {
      var out := p.Recv(frames[i], detect);
      outs := outs + [out];
      i := i + 1;
    }
    SessionLength(0, frames, detect);
    forall j | 0 <= j < |frames|
      ensures outs[j] == SessionFrom(0, frames, detect)[j]
    {
      SessionAt(0, frames, detect, j);
    }
    frameCount := p.frameCount;
    detections := p.detectorCalls;
    DetectedFramesCount(|frames|);
  }
}
