/** One pass of the worker loop of `RsDeviceHandCatch.WaitForFrames`, as a
    pure step over the fields the loop rewrites on every frame. */
module HandCatch {
  import opened Outcomes
  import opened Deprojection
  import opened NearestTarget

  /** The per-frame fields: the sampled window, the collected indices of its
      nearest samples, and the deprojected fingertip. */
  datatype Tracker = Tracker(arrayDepth: seq<real>, listXPos: seq<int>, fingerPosition: Point3)

  /** Sample the window, locate the nearest target and deproject it at the
      centre row. Fails as `Min()` does when the window has no valid sample;
      in the running program that failure is an uncaught exception, so it is
      the worker's last step. */
  function ProcessFrame(s: Tracker, frame: DepthFrame, intr: Intrinsics): (r: Result<Tracker>)
    requires Supported(intr)
    requires Invertible(intr)
    ensures r.Err? <==> forall i :: 0 <= i < SearchSize ==> frame(ColumnOf(i), SearchRow) <= 0.0
    ensures r.Ok? ==>
      var w := r.value.arrayDepth;
      var xs := r.value.listXPos;
      && w == ReadWindow(frame)
      && Locate(w).Ok?
      && var t := Locate(w).value;
         && xs == t.indices
         && FirstColumn <= t.column <= LastColumn
         && r.value.fingerPosition == DeprojectAsWritten(intr, Pixel(t.column as real, SearchRow as real), w[xs[0]])
  {
    var w := ReadWindow(frame);
    var t :- Locate(w);
    TargetBounds(w, t);
    var pixel := Pixel(t.column as real, SearchRow as real);
    Ok(Tracker(w, t.indices, DeprojectAsWritten(intr, pixel, t.depth)))
  }

  /** The fingertip lies at the nearest valid depth of the centre row within
      the window. */
  lemma FingertipAtNearestDepth(s: Tracker, frame: DepthFrame, intr: Intrinsics)
    requires Supported(intr)
    requires Invertible(intr)
    ensures ProcessFrame(s, frame, intr).Ok? ==>
            var finger := ProcessFrame(s, frame, intr).value.fingerPosition;
            && finger.z > 0.0
            && (exists i :: 0 <= i < SearchSize && frame(ColumnOf(i), SearchRow) == finger.z)
            && (forall i :: 0 <= i < SearchSize && frame(ColumnOf(i), SearchRow) > 0.0 ==>
                  finger.z <= frame(ColumnOf(i), SearchRow))
  {
  }

  /** Nothing from an earlier frame survives into the next one: the step
      depends on the frame and the calibration only. This holds by
      construction: the step never reads the previous fields, just as the
      loop overwrites every slot of `arrayDepth` and clears `listXPos`
      (the empty list `Minimisers` starts from) before collecting. */
  lemma ProcessFrameForgetsHistory(s1: Tracker, s2: Tracker, frame: DepthFrame, intr: Intrinsics)
    requires Supported(intr)
    requires Invertible(intr)
    ensures ProcessFrame(s1, frame, intr) == ProcessFrame(s2, frame, intr)
  {
  }

  /** With the correction off or without coefficients, the fingertip is also
      the corrected deprojection of the same pixel at the same depth. */
  lemma FingertipMatchesCorrected(s: Tracker, frame: DepthFrame, intr: Intrinsics)
    requires Supported(intr)
    requires Invertible(intr)
    requires !Distorts(intr) || Undistorted(intr)
    ensures ProcessFrame(s, frame, intr).Ok? ==>
            var t := Locate(ReadWindow(frame)).value;
            ProcessFrame(s, frame, intr).value.fingerPosition
              == Deproject(intr, Pixel(t.column as real, SearchRow as real), t.depth)
  {
  }
}
