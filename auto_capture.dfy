/**
 * The auto-capture gate and the front/back capture steps of the identity
 * verification page (`AppComponent`).
 *
 * Every animation frame the page scores the camera picture; the per-frame
 * verdict (sharp enough and guide filled) is an input here. A bounded counter
 * with hysteresis turns the verdicts into the `guideGood` signal, a pending
 * auto-capture attempt is marked by `autoCapturing`, and when the debounce
 * timer fires the frame is captured only if `guideGood` still holds. Captured
 * frames and chosen files fill the `front`, `back`, `done` steps.
 *
 * Animation-frame and timer callbacks are the events `Tick` and
 * `DebounceFire`; the picture itself is an opaque byte string.
 */
module AutoCapture {
  import opened Wrappers
  import opened IntMath

  /** Consecutive good frames needed before the guide turns good. */
  const StableThreshold: int := 10
  /** The counter never climbs above this, so a short bad streak only delays capture. */
  const StableCap: int := StableThreshold + 5

  datatype Step = Front | Back | Done

  /** A captured or chosen image: its file name and its encoded bytes. */
  datatype File = File(name: string, data: seq<bv8>)

  // ---------------------------------------------------------------------------
  // The stability counter, as a function of the per-frame verdicts
  // ---------------------------------------------------------------------------

  /** The counter after one evaluated frame. */
  function StableStep(frames: int, frameOk: bool): (r: int)
    ensures 0 <= frames <= StableCap ==> 0 <= r <= StableCap
    ensures frameOk ==> r >= frames || frames > StableCap
    ensures !frameOk ==> r <= frames || frames < 0
    ensures frameOk && 0 <= frames < StableCap ==> r == frames + 1
    ensures !frameOk && 0 < frames <= StableCap ==> r == frames - 1
  {
    if frameOk then Min(frames + 1, StableCap) else Max(frames - 1, 0)
  }

  /** `guideGood` as the tick derives it from the counter. */
  predicate Ready(frames: int) { frames >= StableThreshold }

  /** The counter after a run of evaluated frames, oldest verdict first. */
  function Run(frames: int, verdicts: seq<bool>): int
    decreases |verdicts|
  {
    if |verdicts| == 0 then frames
    else Run(StableStep(frames, verdicts[0]), verdicts[1..])
  }

  function Repeat(b: bool, n: nat): (s: seq<bool>)
    ensures |s| == n && forall i :: 0 <= i < n ==> s[i] == b
  {
    if n == 0 then [] else [b] + Repeat(b, n - 1)
  }

  /** Whatever the verdicts, a counter that starts in range stays in range. */
  lemma {:induction false} RunStaysInRange(frames: int, verdicts: seq<bool>)
    requires 0 <= frames <= StableCap
    ensures 0 <= Run(frames, verdicts) <= StableCap
    decreases |verdicts|
  {
    if |verdicts| > 0 {
      RunStaysInRange(StableStep(frames, verdicts[0]), verdicts[1..]);
    }
  }

  /** From `frames`, `n` good frames in a row count up to the cap and stop there. */
  lemma {:induction false} RunOfGoodFrames(frames: int, n: nat)
    requires 0 <= frames <= StableCap
    ensures Run(frames, Repeat(true, n)) == Min(frames + n, StableCap)
    decreases n
  {
    if n > 0 {
      assert Repeat(true, n)[1..] == Repeat(true, n - 1);
      RunOfGoodFrames(StableStep(frames, true), n - 1);
    }
  }

  /** From `frames`, `n` bad frames in a row count down to zero and stop there. */
  lemma {:induction false} RunOfBadFrames(frames: int, n: nat)
    requires 0 <= frames <= StableCap
    ensures Run(frames, Repeat(false, n)) == Max(frames - n, 0)
    decreases n
  {
    if n > 0 {
      assert Repeat(false, n)[1..] == Repeat(false, n - 1);
      RunOfBadFrames(StableStep(frames, false), n - 1);
    }
  }

  /** Running two stretches of verdicts is running the first, then the second. */
  lemma {:induction false} RunAppend(frames: int, a: seq<bool>, b: seq<bool>)
    ensures Run(frames, a + b) == Run(Run(frames, a), b)
    decreases |a|
  {
    if |a| == 0 {
      assert a + b == b;
    } else {
      assert (a + b)[1..] == a[1..] + b;
      RunAppend(StableStep(frames, a[0]), a[1..], b);
    }
  }

  /**
   * From a reset counter the guide turns good exactly on the tenth
   * consecutive good frame: after `n` good frames it is good iff `n >= 10`.
   */
  lemma ReadyFirstOnTenthGoodFrame(n: nat)
    ensures Ready(Run(0, Repeat(true, n))) <==> n >= StableThreshold
  {
    RunOfGoodFrames(0, n);
  }

  /** One bad frame after nine good ones leaves the counter at eight, not zero. */
  lemma NineGoodThenOneBad()
    ensures Run(0, Repeat(true, 9) + [false]) == 8
  {
    RunAppend(0, Repeat(true, 9), [false]);
    RunOfGoodFrames(0, 9);
  }

  /** A ready guide survives one bad frame only from the top of the range. */
  lemma OneBadFrameFromReady(frames: int)
    requires Ready(frames) && frames <= StableCap
    ensures Ready(StableStep(frames, false)) <==> frames > StableThreshold
  {
  }

  // ---------------------------------------------------------------------------
  // Whether the verify button is disabled
  // ---------------------------------------------------------------------------

  /**
   * The verify button is disabled while an upload runs; otherwise the SDK mode
   * needs both sides and the backend mode needs the front side.
   */
  function VerDisabled(uploading: bool, useSdk: bool, front: Option<File>, back: Option<File>): (disabled: bool)
    ensures uploading ==> disabled
    ensures !uploading && useSdk ==> (!disabled <==> front.Some? && back.Some?)
    ensures !uploading && !useSdk ==> (!disabled <==> front.Some?)
  {
    uploading || (if useSdk then !(front.Some? && back.Some?) else !front.Some?)
  }

  // ---------------------------------------------------------------------------
  // The page's capture state
  // ---------------------------------------------------------------------------

  class AppComponent {
    var step: Step
    var frontFile: Option<File>
    var backFile: Option<File>

    var stableFrames: int
    var guideGood: bool
    var autoCapturing: bool
    /** An animation frame is requested (`rafId != null`). */
    var loopActive: bool
    /** Debounce timers scheduled by `Tick` that have not fired yet. */
    ghost var pendingDebounces: nat

    ghost predicate Valid()
      reads this
    {
      && 0 <= stableFrames <= StableCap
      && (guideGood ==> Ready(stableFrames))
      && (autoCapturing ==> pendingDebounces > 0)
      && (step == Back ==> frontFile.Some?)
      && (step == Done ==> backFile.Some?)
    }

    constructor ()
      ensures Valid()
      ensures step == Front && frontFile == None && backFile == None
      ensures stableFrames == 0 && !guideGood && !autoCapturing && !loopActive
      ensures pendingDebounces == 0
    {
      step := Front;
      frontFile, backFile := None, None;
      stableFrames := 0;
      guideGood, autoCapturing, loopActive := false, false, false;
      pendingDebounces := 0;
    }

    /** `startAutoCaptureLoop`: request the first animation frame; the counter is kept. */
    method StartLoop()
      requires Valid()
      modifies this
      ensures Valid() && loopActive
      ensures stableFrames == old(stableFrames) && guideGood == old(guideGood)
      ensures autoCapturing == old(autoCapturing) && pendingDebounces == old(pendingDebounces)
      ensures step == old(step) && frontFile == old(frontFile) && backFile == old(backFile)
    {
      loopActive := true;
    }

    /**
     * `stopAutoCaptureLoop`: cancel the animation frame and clear both flags.
     * The counter is not reset, and an already scheduled debounce timer still fires.
     */
    method StopLoop()
      requires Valid()
      modifies this
      ensures Valid() && !loopActive && !guideGood && !autoCapturing
      ensures stableFrames == old(stableFrames) && pendingDebounces == old(pendingDebounces)
      ensures step == old(step) && frontFile == old(frontFile) && backFile == old(backFile)
    {
      loopActive := false;
      guideGood := false;
      autoCapturing := false;
    }

    /**
     * One animation frame. The next frame is requested first; while the video
     * has no dimensions nothing else happens. Otherwise the counter moves by
     * the frame's verdict, `guideGood` follows it, and a good guide with no
     * attempt pending starts one (schedules the debounce timer).
     */
    method Tick(videoReady: bool, frameOk: bool)
      requires Valid() && loopActive
      modifies this
      ensures Valid() && loopActive
      ensures step == old(step) && frontFile == old(frontFile) && backFile == old(backFile)
      ensures !videoReady ==>
        && stableFrames == old(stableFrames) && guideGood == old(guideGood)
        && autoCapturing == old(autoCapturing) && pendingDebounces == old(pendingDebounces)
      ensures videoReady ==>
        && stableFrames == StableStep(old(stableFrames), frameOk)
        && (guideGood <==> Ready(stableFrames))
        && autoCapturing == (old(autoCapturing) || guideGood)
        && pendingDebounces == old(pendingDebounces) + (if guideGood && !old(autoCapturing) then 1 else 0)
    {
      loopActive := true;
      if !videoReady {
        return;
      }
      if frameOk {
        stableFrames := Min(stableFrames + 1, StableCap);
      } else {
        stableFrames := Max(stableFrames - 1, 0);
      }
      guideGood := stableFrames >= StableThreshold;
      if guideGood && !autoCapturing {
        autoCapturing := true;
        pendingDebounces := pendingDebounces + 1;
      }
    }

    /**
     * `captureFrame`: a snapshot (absent when the canvas, its context or the
     * encoded blob is missing) becomes the front file and moves to `back` when
     * the step is `front`, and otherwise becomes the back file and moves to `done`.
     */
    method CaptureFrame(snapshot: Option<seq<bv8>>)
      requires Valid()
      modifies this
      ensures Valid()
      ensures stableFrames == old(stableFrames) && guideGood == old(guideGood)
      ensures autoCapturing == old(autoCapturing) && loopActive == old(loopActive)
      ensures pendingDebounces == old(pendingDebounces)
      ensures snapshot.None? ==>
        step == old(step) && frontFile == old(frontFile) && backFile == old(backFile)
      ensures snapshot.Some? && old(step) == Front ==>
        && frontFile == Some(File("front.jpg", snapshot.value))
        && step == Back && backFile == old(backFile)
      ensures snapshot.Some? && old(step) != Front ==>
        && backFile == Some(File("back.jpg", snapshot.value))
        && step == Done && frontFile == old(frontFile)
      ensures StepRank(step) >= StepRank(old(step))
    {
      if snapshot.None? {
        return;
      }
      var f := File(if step == Front then "front.jpg" else "back.jpg", snapshot.value);
      if step == Front {
        frontFile := Some(f);
        step := Back;
      } else {
        backFile := Some(f);
        step := Done;
      }
    }

    /**
     * The debounce timer of an auto-capture attempt fires: capture only if the
     * guide is still good, then end the attempt and reset the counter whatever
     * happened.
     */
    method DebounceFire(snapshot: Option<seq<bv8>>)
      requires Valid() && pendingDebounces > 0
      modifies this
      ensures Valid()
      ensures !autoCapturing && stableFrames == 0 && !guideGood
      ensures pendingDebounces == old(pendingDebounces) - 1 && loopActive == old(loopActive)
      ensures !old(guideGood) || snapshot.None? ==>
        step == old(step) && frontFile == old(frontFile) && backFile == old(backFile)
      ensures old(guideGood) && snapshot.Some? && old(step) == Front ==>
        && frontFile == Some(File("front.jpg", snapshot.value))
        && step == Back && backFile == old(backFile)
      ensures old(guideGood) && snapshot.Some? && old(step) != Front ==>
        && backFile == Some(File("back.jpg", snapshot.value))
        && step == Done && frontFile == old(frontFile)
    {
      if guideGood {
        CaptureFrame(snapshot);
      }
      autoCapturing := false;
      stableFrames := 0;
      guideGood := false;
      pendingDebounces := pendingDebounces - 1;
    }

    /** `onFrontFileChange`: the first chosen file becomes the front file and the step is `back`. */
    method OnFrontFile(files: seq<File>)
      requires Valid()
      modifies this
      ensures Valid()
      ensures stableFrames == old(stableFrames) && guideGood == old(guideGood)
      ensures autoCapturing == old(autoCapturing) && loopActive == old(loopActive)
      ensures pendingDebounces == old(pendingDebounces) && backFile == old(backFile)
      ensures |files| == 0 ==> step == old(step) && frontFile == old(frontFile)
      ensures |files| > 0 ==> step == Back && frontFile == Some(files[0])
    {
      if |files| > 0 {
        frontFile := Some(files[0]);
        step := Back;
      }
    }

    /** `onBackFileChange`: the first chosen file becomes the back file and the step is `done`. */
    method OnBackFile(files: seq<File>)
      requires Valid()
      modifies this
      ensures Valid()
      ensures stableFrames == old(stableFrames) && guideGood == old(guideGood)
      ensures autoCapturing == old(autoCapturing) && loopActive == old(loopActive)
      ensures pendingDebounces == old(pendingDebounces) && frontFile == old(frontFile)
      ensures |files| == 0 ==> step == old(step) && backFile == old(backFile)
      ensures |files| > 0 ==> step == Done && backFile == Some(files[0])
    {
      if |files| > 0 {
        backFile := Some(files[0]);
        step := Done;
      }
    }
  }

  /** Position of a step in the `front`, `back`, `done` order. */
  function StepRank(s: Step): nat
  {
    match s
    case Front => 0
    case Back => 1
    case Done => 2
  }

  /**
   * A fresh page with the camera loop running sees ten good frames in a row:
   * the tenth starts an attempt, and when its debounce fires the frame becomes
   * the front capture.
   */
  method AutoCaptureFrontScenario(picture: seq<bv8>) returns (step: Step, front: Option<File>, capturing: bool)
    ensures step == Back && front == Some(File("front.jpg", picture)) && !capturing
  {
    var page := new AppComponent();
    page.StartLoop();
    var i := 0;
    while i < StableThreshold
      invariant 0 <= i <= StableThreshold
      invariant page.Valid() && page.loopActive && page.step == Front
      invariant page.stableFrames == i
      invariant page.guideGood == (i == StableThreshold)
      invariant page.autoCapturing == (i == StableThreshold)
      invariant page.pendingDebounces == (if i == StableThreshold then 1 else 0)
    {
      page.Tick(true, true);
      i := i + 1;
    }
    page.DebounceFire(Some(picture));
    step, front, capturing := page.step, page.frontFile, page.autoCapturing;
  }
}
