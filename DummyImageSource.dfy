/** The simulated camera.  The source keeps its state in four module globals
    (`live`, `frame_number`, `stop_frame`, `lastimage`); here they are the
    fields of one `DummyCamera` object, and the random contents of each new
    frame are an input of `GetImage`. */
module DummyImageSource {

  /** A frame of pixel samples, as rows. */
  type Image = seq<seq<int>>

  /** `stop_frame`: a frame number, or numpy's infinity. */
  datatype StopFrame = Infinity | Frame(n: int)

  /** `frame_number < stop_frame`. */
  predicate Below(frame: int, stop: StopFrame)
  {
    match stop
    case Infinity => true
    case Frame(n) => frame < n
  }

  /** `frame_number <= stop_frame`. */
  predicate AtMost(frame: int, stop: StopFrame)
  {
    match stop
    case Infinity => true
    case Frame(n) => frame <= n
  }

  /** The value of the four globals. */
  datatype State = State(live: bool, frameNumber: int, stopFrame: StopFrame, lastimage: Image)

  /** The globals at import time. */
  function Initial(first: Image): (s: State)
    ensures s.live && s.frameNumber == 1 && s.stopFrame == Infinity && s.lastimage == first
  {
    State(true, 1, Infinity, first)
  }

  /** One `get_image` call, `drawn` being the random frame it draws.  While
      live and below the stop frame it captures a new frame and advances the
      frame number by one; otherwise nothing changes. */
  function AfterGetImage(s: State, drawn: Image): (t: State)
    ensures t.live == s.live && t.stopFrame == s.stopFrame
    ensures s.live && Below(s.frameNumber, s.stopFrame) ==>
              t.frameNumber == s.frameNumber + 1 && t.lastimage == drawn
    ensures !(s.live && Below(s.frameNumber, s.stopFrame)) ==> t == s
    ensures AtMost(s.frameNumber, s.stopFrame) ==> AtMost(t.frameNumber, t.stopFrame)
  {
    if s.live && Below(s.frameNumber, s.stopFrame) then
      s.(lastimage := drawn, frameNumber := s.frameNumber + 1)
    else s
  }

  /** `start_continuous_capture`: live from frame 1 with no stop frame. */
  function AfterStartContinuous(s: State): State
  {
    s.(frameNumber := 1, live := true, stopFrame := Infinity)
  }

  /** `start_sequence_capture(n)`: live from frame 1, stopping at frame n + 1. */
  function AfterStartSequence(s: State, n: int): State
  {
    s.(frameNumber := 1, live := true, stopFrame := Frame(n + 1))
  }

  /** `stop_live_capture`: freeze. */
  function AfterStop(s: State): State
  {
    s.(live := false)
  }

  /** Consecutive `get_image` calls, one per element of `frames`. */
  function Run(s: State, frames: seq<Image>): State
    decreases |frames|
  {
    if frames == [] then s else Run(AfterGetImage(s, frames[0]), frames[1..])
  }

  function Min(a: int, b: int): int { if a <= b then a else b }

  function Max(a: int, b: int): int { if a >= b then a else b }

  /** Running against a stop frame m: the frame number advances once per call
      until it reaches m, and the last image is the last one captured. */
  lemma {:induction false} RunToStop(s: State, m: int, frames: seq<Image>)
    requires s.live && s.stopFrame == Frame(m)
    ensures var k := Min(|frames|, Max(m - s.frameNumber, 0));
            var t := Run(s, frames);
            && t.live && t.stopFrame == Frame(m)
            && t.frameNumber == s.frameNumber + k
            && t.lastimage == (if k == 0 then s.lastimage else frames[k - 1])
    decreases |frames|
  {
    if frames != [] {
      var s' := AfterGetImage(s, frames[0]);
      RunToStop(s', m, frames[1..]);
    }
  }

  /** After `start_sequence_capture(n)`, the first n calls each capture a new
      frame and advance the frame number; every later call leaves it at n + 1
      and returns the same image. */
  lemma SequenceCapture(s: State, n: int, frames: seq<Image>)
    ensures var k := Min(|frames|, Max(n, 0));
            var t := Run(AfterStartSequence(s, n), frames);
            && t.frameNumber == 1 + k
            && t.lastimage == (if k == 0 then s.lastimage else frames[k - 1])
    ensures n >= 0 && |frames| >= n ==>
              var t := Run(AfterStartSequence(s, n), frames);
              && t.frameNumber == n + 1 && !Below(t.frameNumber, t.stopFrame)
              && forall drawn :: AfterGetImage(t, drawn) == t
  {
    var s0 := AfterStartSequence(s, n);
    assert Max(n + 1 - s0.frameNumber, 0) == Max(n, 0);
    RunToStop(s0, n + 1, frames);
    if n >= 0 && |frames| >= n {
      var t := Run(s0, frames);
      assert t.frameNumber == n + 1 && t.stopFrame == Frame(n + 1);
      assert !Below(t.frameNumber, t.stopFrame);
    }
  }

  /** With no stop frame every call while live captures and advances. */
  lemma {:induction false} RunUnbounded(s: State, frames: seq<Image>)
    requires s.live && s.stopFrame == Infinity
    ensures var t := Run(s, frames);
            && t.live && t.stopFrame == Infinity
            && t.frameNumber == s.frameNumber + |frames|
            && t.lastimage == (if frames == [] then s.lastimage else frames[|frames| - 1])
    decreases |frames|
  {
    if frames != [] {
      RunUnbounded(AfterGetImage(s, frames[0]), frames[1..]);
      if |frames| > 1 {
        assert frames[1..][|frames| - 2] == frames[|frames| - 1];
      }
    }
  }

  /** After `start_continuous_capture` the frame number counts the calls. */
  lemma ContinuousCapture(s: State, frames: seq<Image>)
    ensures var t := Run(AfterStartContinuous(s), frames);
            && t.frameNumber == 1 + |frames|
            && t.lastimage == (if frames == [] then s.lastimage else frames[|frames| - 1])
  {
    RunUnbounded(AfterStartContinuous(s), frames);
  }

  /** Frozen: calls change neither the frame number nor the image. */
  lemma {:induction false} FrozenRun(s: State, frames: seq<Image>)
    requires !s.live
    ensures Run(s, frames) == s
    decreases |frames|
  {
    if frames != [] {
      FrozenRun(AfterGetImage(s, frames[0]), frames[1..]);
    }
  }

  /** After `stop_live_capture`, however the camera stood before. */
  lemma StopFreezes(s: State, frames: seq<Image>)
    ensures Run(AfterStop(s), frames) == AfterStop(s)
  {
    FrozenRun(AfterStop(s), frames);
  }

  /** The simulated camera (the module's globals). */
  class DummyCamera {
    var live: bool
    var frameNumber: int
    var stopFrame: StopFrame
    var lastimage: Image

    function Snapshot(): State
      reads this
    {
      State(live, frameNumber, stopFrame, lastimage)
    }

    /** Module import: live, frame 1, no stop frame, one random image. */
    constructor (first: Image)
      ensures Snapshot() == Initial(first)
    {
      live := true;
      lastimage := first;
      frameNumber := 1;
      stopFrame := Infinity;
    }

    method GetImage(drawn: Image) returns (image: Image)
      modifies this
      ensures Snapshot() == AfterGetImage(old(Snapshot()), drawn)
      ensures image == lastimage
    {
      if live && Below(frameNumber, stopFrame) {
        lastimage := drawn;
        frameNumber := frameNumber + 1;
      }
      image := lastimage;
    }

    /** Reports the frame number and changes nothing. */
    method GetFrameNumber() returns (n: int)
      ensures n == frameNumber
    {
      n := frameNumber;
    }

    method StartContinuousCapture()
      modifies this
      ensures Snapshot() == AfterStartContinuous(old(Snapshot()))
    {
      frameNumber := 1;
      live := true;
      stopFrame := Infinity;
    }

    method StartSequenceCapture(n: int)
      modifies this
      ensures Snapshot() == AfterStartSequence(old(Snapshot()), n)
    {
      frameNumber := 1;
      live := true;
      stopFrame := Frame(n + 1);
    }

    method StopLiveCapture()
      modifies this
      ensures Snapshot() == AfterStop(old(Snapshot()))
    {
      live := false;
    }
  }
}
