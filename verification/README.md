# Fingertip locator of `RsDeviceHandCatch`, in Dafny

`RsDeviceHandCatch` is a Unity component that streams a RealSense depth
camera. In its Multithread mode, each depth frame passes through a worker
loop that locates the nearest object (a fingertip) in front of the camera. The loop reads 96
depth samples along the centre row (row 240) of a 640x480 depth image. It
drops the invalid (non-positive) samples and takes the smallest remaining
depth. It then collects every window index that holds that depth and
takes the floor midpoint of the lowest and highest such index. The
midpoint is mapped back to an image column, and that pixel is deprojected
at the nearest depth to a 3D point with the stream's pinhole intrinsics.

This project models that locator as pure functions over `real`:

- `outcomes.dfy`, module `Outcomes`: `Result` and the one fault the
  locator can raise. That fault is `Min()` applied to an empty sequence,
  which throws in .NET.
- `nearest_target.dfy`, module `NearestTarget`: it covers the window
  geometry, the sampling loop, `minDepth`, the collection of `listXPos`,
  `listXPos.Min()`/`Max()`, `aveIndex` and `avePixelX`. The results are
  characterised against an independent notion of a *nearest* index
  (`IsNearest`).
- `deprojection.dfy`, module `Deprojection`: it covers the intrinsics
  record, `Rs2_Deproject_Pixel_to_Point` as written, a corrected
  deprojection (see Findings), and a pinhole projection as the
  deprojection's inverse.
- `hand_catch.dfy`, module `HandCatch`: one pass of the worker loop, as a
  step from one frame's fields to the next.

A depth frame is modelled as a total function from (column, row) to a
distance in metres. Intrinsics are an immutable record. The camera, the
clock and the threads are not modelled.

The sampling loop's comment names the window as columns 272-368. The code
reads column `320 - 48 + (i + 1)` for index `i` in 0..95, which is columns
273..368. The model follows the code (`NearestTarget.ColumnOf`,
`NearestTarget.Column272NotSampled`).

## Model

| member | source | states |
|---|---|---|
| NearestTarget.ColumnOf | Assets/Scripts/RsDeviceHandCatch.cs:199-201 | an index lies in the window 0..95 exactly when its sampled column lies in 273..368 |
| NearestTarget.IndexOfColumn | Assets/Scripts/RsDeviceHandCatch.cs:201-202 | a column lies in 273..368 exactly when its window slot lies in 0..95 |
| NearestTarget.ColumnIndexRoundTrip | Assets/Scripts/RsDeviceHandCatch.cs:201 | index-to-column and column-to-index are mutually inverse |
| NearestTarget.Column272NotSampled | Assets/Scripts/RsDeviceHandCatch.cs:198-201 | column 272 is never read, contrary to the loop's comment |
| NearestTarget.ReadWindow | Assets/Scripts/RsDeviceHandCatch.cs:199-203 | the window has 96 samples, and sample `i` is the frame's depth at column `ColumnOf(i)` of row 240 |
| NearestTarget.EveryColumnRead | Assets/Scripts/RsDeviceHandCatch.cs:199-203 | every column 273..368 of row 240 is read into the window |
| NearestTarget.Positives | Assets/Scripts/RsDeviceHandCatch.cs:206 | the `Where(x => x > 0)` filter keeps exactly the positive samples and nothing else, each as many times as it occurs in the window |
| NearestTarget.PositivesCons | Assets/Scripts/RsDeviceHandCatch.cs:206 | filtering a sample followed by the rest keeps that sample in front exactly when it is positive |
| NearestTarget.PositivesAppend | Assets/Scripts/RsDeviceHandCatch.cs:206 | the filter keeps window order: filtering a concatenation is the concatenation of the filtered parts |
| NearestTarget.MinOf | Assets/Scripts/RsDeviceHandCatch.cs:206 | `Min()` of a non-empty sequence is one of its elements and no element is smaller |
| NearestTarget.MinDepth | Assets/Scripts/RsDeviceHandCatch.cs:206 | fails with the empty-sequence fault exactly when no sample is positive; otherwise the result is a positive sample of the window and is at most every positive sample |
| NearestTarget.PositivesIgnoresInvalid | Assets/Scripts/RsDeviceHandCatch.cs:206 | replacing an invalid sample by another invalid one leaves the filtered samples unchanged |
| NearestTarget.MinDepthIgnoresInvalid | Assets/Scripts/RsDeviceHandCatch.cs:206 | non-positive samples never influence `minDepth` |
| NearestTarget.CollectFrom | Assets/Scripts/RsDeviceHandCatch.cs:208-214 | the loop keeps the list it started with as a prefix, and appends, in increasing order, exactly the remaining indices whose sample equals the minimum |
| NearestTarget.Minimisers | Assets/Scripts/RsDeviceHandCatch.cs:207-214 | after clearing and collecting, the list holds exactly the indices whose sample equals the minimum, strictly increasing; it is non-empty exactly when the minimum occurs in the window |
| NearestTarget.Lowest | Assets/Scripts/RsDeviceHandCatch.cs:215 | `listXPos.Min()` is an element that no element is below |
| NearestTarget.Highest | Assets/Scripts/RsDeviceHandCatch.cs:215 | `listXPos.Max()` is an element that no element exceeds |
| NearestTarget.NearestIffMinDepth | Assets/Scripts/RsDeviceHandCatch.cs:206-214 | an index holds `minDepth` exactly when it is a nearest valid index |
| NearestTarget.IncreasingEnds | Assets/Scripts/RsDeviceHandCatch.cs:215 | on the increasing list, `Min()` and `Max()` are its first and last entries |
| NearestTarget.Locate | Assets/Scripts/RsDeviceHandCatch.cs:206-216 | fails exactly when no sample is positive. Otherwise the collected indices are exactly the nearest ones in increasing order, the depth is that of the first of them, the index is the floor midpoint of the first and last, and the column is that index's column |
| NearestTarget.TargetBounds | Assets/Scripts/RsDeviceHandCatch.cs:206-216 | the located depth is positive and at most every valid sample. Every nearest index lies between the lowest and highest one, and so does `aveIndex`; it lies in 0..95 and `avePixelX` lies in 273..368 |
| NearestTarget.UniqueNearestIsReturned | Assets/Scripts/RsDeviceHandCatch.cs:206-216 | a unique nearest index is returned unchanged, with its own column and depth |
| NearestTarget.PlateauMidpoint | Assets/Scripts/RsDeviceHandCatch.cs:206-216 | when the nearest indices form one run a..b, the result is `(a + b) / 2`, and that index is itself a nearest one |
| NearestTarget.RunMidpoint | Assets/Scripts/RsDeviceHandCatch.cs:215-216 | for any target that describes the window, a run a..b of nearest indices gives `aveIndex = (a + b) / 2`, and that index is nearest |
| NearestTarget.TwoNearestMidpoint | Assets/Scripts/RsDeviceHandCatch.cs:215-216 | for any target that describes the window, exactly two nearest indices a < b give `aveIndex = (a + b) / 2` |
| NearestTarget.SplitNearestMidpointIsFarther | Assets/Scripts/RsDeviceHandCatch.cs:215-216 | when the nearest indices are not contiguous, the sample at `aveIndex` can be farther than `minDepth` (nearest at 0 and 2, returned index 1) |
| Deprojection.Normalize | Assets/Scripts/RsDeviceHandCatch.cs:233-234 | the normalised coordinates, scaled by the focal length and shifted by the principal point, give back the pixel |
| Deprojection.DeprojectAsWritten | Assets/Scripts/RsDeviceHandCatch.cs:228-247 | under the two asserted model restrictions: z equals the depth; x·fx = depth·(px − ppx) and y·fy = depth·(py − ppy), so the pinhole formula holds; the principal point maps to (0, 0, depth) |
| Deprojection.AsWrittenIgnoresCoefficients | Assets/Scripts/RsDeviceHandCatch.cs:230-244 | the distortion block is unreachable under the assertions, so the coefficients never affect the result |
| Deprojection.Correct | Assets/Scripts/RsDeviceHandCatch.cs:238-243 | the radial-tangential correction is the identity when all five coefficients are zero, and it leaves the optical axis (0, 0) where it is whatever the coefficients |
| Deprojection.Deproject | Assets/Scripts/RsDeviceHandCatch.cs:228-247 | z equals the depth; the pinhole formula holds whenever the correction is off or every coefficient is zero; the principal point maps to (0, 0, depth) whatever the coefficients |
| Deprojection.CorrectedAgreesWithAsWritten | Assets/Scripts/RsDeviceHandCatch.cs:236-244 | when the calibration is not inverse Brown-Conrady, or all its coefficients are zero, the corrected deprojection equals the one as written |
| Deprojection.CorrectionTakesEffect | Assets/Scripts/RsDeviceHandCatch.cs:236-244 | with the corrected guard the distortion block runs: an inverse Brown-Conrady calibration with k1 = 1 moves pixel (1, 0) at depth 1 to x = 2, while the as-written function leaves it at x = 1 |
| Deprojection.DepthLinear | Assets/Scripts/RsDeviceHandCatch.cs:233-246 | for a fixed pixel and calibration, scaling the depth by k scales every output coordinate by k (both versions) |
| Deprojection.Project | Assets/Scripts/RsDeviceHandCatch.cs:233-246 | the pinhole projection used as the deprojection's inverse: the pixel's offset from the principal point, times z, equals the point's coordinate times the focal length |
| Deprojection.ProjectDeproject | Assets/Scripts/RsDeviceHandCatch.cs:233-246 | without distortion and at non-zero depth, projecting a deprojected pixel gives the pixel back |
| Deprojection.DeprojectProject | Assets/Scripts/RsDeviceHandCatch.cs:233-246 | without distortion, deprojecting a point's projection at the point's depth gives the point back |
| HandCatch.ProcessFrame | Assets/Scripts/RsDeviceHandCatch.cs:199-221 | one frame fails exactly when no sample in the window is positive. Otherwise `arrayDepth` is the sampled window and `listXPos` is the index list of the window's located target, which by `Locate`'s contract is exactly the nearest indices in increasing order. The located column lies in 273..368, and the fingertip is the as-written deprojection of that column on row 240 at the nearest depth |
| HandCatch.FingertipAtNearestDepth | Assets/Scripts/RsDeviceHandCatch.cs:206-221 | the fingertip's z is positive, occurs in the window, and is at most every valid sample of row 240 in columns 273..368 |
| HandCatch.ProcessFrameForgetsHistory | Assets/Scripts/RsDeviceHandCatch.cs:199-214 | the step depends only on the frame and the calibration; nothing from the previous frame's `arrayDepth` or `listXPos` survives (by construction: the step never reads them) |
| HandCatch.FingertipMatchesCorrected | Assets/Scripts/RsDeviceHandCatch.cs:216-221 | when the calibration is not inverse Brown-Conrady, or has no coefficients, the fingertip also equals the corrected deprojection of the same pixel and depth |

## Left out

- Unity lifecycle callbacks (`OnEnable`, `Start`, `WaitAndStart`, `OnDisable`, `OnDestroy`, `Update`): they are engine plumbing with no logic of their own.
- The worker thread, `stopEvent`, `Join` and the Multithread/UnityThread modes. `OnEnable` starts the worker only in Multithread mode (lines 101-107), and `HandCatch.ProcessFrame` models one pass of its loop body. In UnityThread mode, `Update` (lines 249-272) only polls frames and raises the sample event, so the locator does not run at all and no fingertip is ever computed.
- What happens after the one failure the locator can raise. `Min()` throws on line 206 when the window has no valid sample, and nothing in `WaitForFrames` (lines 190-226) catches the exception. It leaves the `while` loop of line 192 and ends the worker thread. From then on no frame is processed, and `fingerPosition` keeps its last value for the rest of the session. For example, a hand closer than the camera's minimum range stops tracking for good. `HandCatch.ProcessFrame` returns `Err` for that step only; the sequence of frames and the thread's end are not modelled.
- RealSense SDK calls (`Pipeline`, `Start`, `WaitForFrames`, `PollForFrames`, `GetDistance`, `GetIntrinsics`, `Dispose`): they are foreign I/O. The frame becomes a function argument and the intrinsics a record argument.
- `RaiseSampleEvent`, the `OnStart`/`OnStop`/`OnNewSample` events and `Debug.Log`: they are output only.
- `RsDeviceDepth.cs`: it polls the SDK and logs one depth value, so it has no logic to model.
- Single-precision rounding, NaN and infinities: depths, pixels and coordinates are `real`. The exact comparison `arrayDepth[i] == minDepth` is modelled as exact equality of reals.
- The correction polynomial is modelled as written, but nothing numeric is proved about it beyond the facts in the table.
- Deprojection.DeprojectAsWritten: requires non-zero focal lengths. The source divides by them unguarded and yields non-finite values, which reals cannot express.
- Deprojection.DeprojectAsWritten: `Supported` reads the two `Assert.IsTrue` lines (230-231) as preconditions. Unity's assertions only log a failure and carry on (and are compiled out of builds without assertions), so the running program would still deproject modified Brown-Conrady and f-theta calibrations, and for modified Brown-Conrady it would run the correction of lines 238-243. Those inputs are outside the model.
- Deprojection.Deproject: requires non-zero focal lengths, for the same reason.
- HandCatch.ProcessFrame: requires `Supported` and non-zero focal lengths, as the deprojection it calls does.
- The intrinsics' `width` and `height` are carried in the record but never read, as in the source.

## Findings

| source | as written | input that shows it | evidently intended | confidence | as-written member | corrected member |
|---|---|---|---|---|---|---|
| Assets/Scripts/RsDeviceHandCatch.cs:236 | the distortion block runs only when `model == ModifiedBrownConrady`, which the assertion on line 230 forbids, so the block is unreachable whenever the assertions hold | inverse Brown-Conrady intrinsics, fx = fy = 1, principal point (0, 0), coefficients (1, 0, 0, 0, 0), pixel (1, 0), depth 1: the result is x = 1, not the corrected x = 2 | guard on the inverse Brown-Conrady model, as librealsense's own `rs2_deproject_pixel_to_point` does | medium, not executed | Deprojection.AsWrittenIgnoresCoefficients | Deprojection.Deproject, with Deprojection.CorrectionTakesEffect and Deprojection.CorrectedAgreesWithAsWritten |
