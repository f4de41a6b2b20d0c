# Vehicle accident heuristic — a Dafny model

The application runs an object detector over video frames. It flags a frame as a possible
accident when a vehicle box of that frame overlaps a vehicle box of the previous frame
heavily and has grown suddenly in area. For every flagged frame it saves a snapshot and
appends a row to a CSV event log.

This project models the part of `detector/pipeline.py` that holds the logic. The detector,
OpenCV and the UI are not modelled. The model has five modules:

- `Geometry` (geometry.dfy): boxes `[x1, y1, x2, y2]`, the clamped area and
  `compute_iou`. Coordinates are exact `real`s, and the 1e-6 guard is the constant `Eps`.
- `Vehicles` (vehicles.dfy): the per-frame filter. It keeps the detections labelled car,
  motorbike, bus or truck as `{coords, area, label}` records (`className` stands for the
  label, because `label` is a Dafny keyword). `VehicleBoxes` specifies the filter and
  `FilterVehicles` is its loop. The class set keeps the code's spelling `motorbike`. The
  COCO label set of the default YOLOv8 weights loaded in detector/model.py names that class
  `motorcycle`, so with those weights motorcycles are probably never kept.
- `Heuristic` (heuristic.dfy): the trigger test. `Flagged` says that some (current,
  previous) pair has IoU at least the threshold, a positive previous area and an area ratio
  at least the growth factor. `FindTrigger` is the nested search that breaks at the first hit.
- `Outputs` (outputs.dfy): the decimal text of counters, the snapshot path
  `outputs/frames/{base}_accident_{id}_frame_{frame}.jpg`, the log path
  `outputs/{base}_accident_log.csv`, the fixed log columns and the timestamp.
- `Analysis` (analysis.dfy): `analyze_frames`. `RunState` holds the loop's variables:
  `prev_boxes`, `accident_counter`, `frame_idx`, the events and the snapshot paths.
  `Step` and `Run` specify one frame and a whole run. `AnalyzeFrames` is the loop itself.
  It stops at the first missing frame, bumps the index and then leaves once the index
  exceeds `max_frames`. It is proved equal to `Run` over the processed frames.
  The lemmas prove these properties of the event log:
  - the ids are 1..k;
  - the frames strictly increase and lie within the processed range;
  - the counter equals the log length;
  - every snapshot path and timestamp is derived from its own event;
  - an event exists on a frame exactly when that frame is flagged against the one before.

`Scenarios` (scenarios.dfy) works small two-frame runs through the model.

Each frame is an `Option<seq<Detection>>`. `None` stands for a frame that is `None`, and the
end of the sequence stands for the end of the source. A detection is a class name and a box,
so the detector's confidence threshold does not appear.

Two details of the loop shape what is processed:

- With a frame budget of N, `analyze_frames` still pulls frame N+1 from its generator. It
  bumps `frame_idx` to N+1 and only then breaks, so that frame reaches no detection. In the
  model, `Processed` holds exactly the frames that reach detection, and `RunState.frameIdx`
  counts only those.
- A missing frame (`None`) ends the run like exhaustion does. Frames after it are never looked at.

## Model

| member | source | states |
|---|---|---|
| `Geometry.Clamp` | detector/pipeline.py:31-32 | max(0, v) is non-negative, at least v, v itself when v >= 0 and 0 when v <= 0 |
| `Geometry.Area` | detector/pipeline.py:35-36 | the clamped area is never negative, and it is positive exactly when x1 < x2 and y1 < y2 |
| `Geometry.InterArea` | detector/pipeline.py:26-33 | the intersection area is at most the area of each box, and it is zero exactly when the boxes do not overlap on some axis |
| `Geometry.Iou` | detector/pipeline.py:22-39 | IoU lies in [0, 1), and it is 0 exactly when the boxes are disjoint (min x2 <= max x1 or min y2 <= max y1) |
| `Geometry.IouSymmetric` | detector/pipeline.py:26-38 | iou(a, b) == iou(b, a) |
| `Geometry.IouSelf` | detector/pipeline.py:22-39 | a box with positive area has iou(A, A) = area/(area + 1e-6), which is within 1e-6/area of 1 |
| `Vehicles.VehicleBoxes` | detector/pipeline.py:98-107 | every kept record has a vehicle class label and area == clamped area of its coords >= 0, and there are no more records than detections |
| `Vehicles.KeptIndices` | detector/pipeline.py:99-103 | the positions of vehicle detections, listed independently: increasing, each one a vehicle, and none missing |
| `Vehicles.VehicleBoxesExact` | detector/pipeline.py:99-107 | the filter output is exactly the vehicle detections in input order, record k being the k-th vehicle detection with its clamped area |
| `Vehicles.FilterVehicles` | detector/pipeline.py:98-107 | the append loop produces exactly `VehicleBoxes` of the frame's detections |
| `Heuristic.Flagged` | detector/pipeline.py:109-120 | a flagged frame has at least one current and at least one previous vehicle, so the first frame and empty frames are never flagged |
| `Heuristic.FindTrigger` | detector/pipeline.py:110-120 | the nested search with breaks returns true iff some (current, previous) pair has IoU >= threshold, previous area > 0 and area ratio >= growth factor |
| `Heuristic.TriggerGrows` | detector/pipeline.py:114-117 | with a growth factor >= 1, a triggering current box is strictly larger than its previous box |
| `Heuristic.TriggerOverlaps` | detector/pipeline.py:113-114 | with a positive IoU threshold, a triggering pair's boxes overlap |
| `Outputs.Decimal` | detector/pipeline.py:147 | an integer in the f-string prints as a non-empty run of digits with no leading zero: a text starting with '0' is exactly "0", the text of 0 |
| `Outputs.DecimalRoundTrip` | detector/pipeline.py:147 | reading the printed digits back gives the number |
| `Outputs.DecimalInjective` | detector/pipeline.py:147 | distinct numbers print differently |
| `Outputs.SnapshotPathInjective` | detector/pipeline.py:145-148 | two snapshot paths of one base name are equal only for the same event id and frame, so no snapshot overwrites another |
| `Outputs.Timestamp` | detector/pipeline.py:131 | ts is non-negative; ts * fps == frame when fps > 0; ts == frame when fps <= 0 |
| `Outputs.TimestampIncreasing` | detector/pipeline.py:131 | later frames get strictly later timestamps |
| `Analysis.PulledCount` | detector/pipeline.py:83-85 | the frames before the first `None` are all present, and the next one, if any, is `None` |
| `Analysis.Budget` | detector/pipeline.py:87-90 | the budget lets through at most max_frames of the pulled frames, all of them without a budget, and cuts only at max_frames (or at 0 when it is not positive) |
| `Analysis.Processed` | detector/pipeline.py:83-90 | the processed frames are the leading present frames; their number is exactly the budget's share of the frames before the first `None` (min(max_frames, pulled), or 0 when max_frames <= 0), so at most max_frames, and all of them when there is no budget |
| `Analysis.LogValidAppend` | detector/pipeline.py:129-160 | appending the next event (id k+1, the new frame) keeps ids 1..k+1, strictly increasing frames and derived paths and times |
| `Analysis.StepValid` | detector/pipeline.py:109-162 | one frame keeps the log valid and the counter equal to its length, bumps the frame index, keeps earlier events and replaces prev_boxes with this frame's vehicles, flagged or not |
| `Analysis.RunValid` | detector/pipeline.py:77-162 | after n frames the log is valid, frame_idx == n and prev_boxes holds the last frame's vehicles (empty before the first frame) |
| `Analysis.StepEvents` | detector/pipeline.py:129-160 | a step adds an event on the new frame exactly when that frame is flagged against the remembered boxes, and it keeps the earlier events |
| `Analysis.EventFramesExact` | detector/pipeline.py:109-162 | the log holds an event on frame f iff 1 <= f <= frames processed and frame f is flagged against frame f-1 (against nothing for f = 1) |
| `Analysis.NoEventOnFirstFrame` | detector/pipeline.py:77 | no event is ever recorded on frame 1 |
| `Analysis.NoOverlapNotFlagged` | detector/pipeline.py:111-117 | with a positive IoU threshold, vehicles that share no area never trigger |
| `Analysis.NoOverlapNoEvents` | detector/pipeline.py:109-162 | with a positive IoU threshold, a run with no overlapping vehicle pairs between consecutive frames records no event and no snapshot (so the CSV written afterwards is only the header) |
| `Analysis.CaptureFps` | detector/pipeline.py:240-242 | the live-camera rate is in (0, 120], and it is the reported rate whenever that is plausible |
| `Analysis.AnalyzeFrames` | detector/pipeline.py:57-189 | the loop's events and snapshot paths equal those of `Run` over exactly the processed frames; the log is valid over that many frames, there is one snapshot per event, and the CSV path is outputs/{base}_accident_log.csv |
| `Scenarios.SteadyCarNoEvent` | detector/pipeline.py:113-117 | the same 10x10 car on two frames (ratio 1.0 < 1.5) records no event |
| `Scenarios.GrowingPairTriggers` | detector/pipeline.py:113-117 | a 13x13 box over a 10x10 box has IoU >= 0.5 and growth >= 1.5 |
| `Scenarios.GrowingCarEvent` | detector/pipeline.py:129-160 | a 10x10 car then a 13x13 car records exactly event 1 on frame 2 |
| `Scenarios.FirstEventTime` | detector/pipeline.py:131 | event 1 on frame 2 at 25 fps is stamped 0.08 s |
| `Scenarios.GrowingPersonNoEvent` | detector/pipeline.py:102-103 | the same growth on a non-vehicle class records nothing |
| `Scenarios.BudgetOfOneFrame` | detector/pipeline.py:87-90 | with max_frames = 1 only the first frame is processed, so the growing car records no event |

## Left out

- The detector (`model(...)`, `model.names`, detector/model.py) is not modelled. Each frame is given as its list of labelled boxes, after the confidence threshold.
- OpenCV drawing and writing (`draw_label`, `cv2.rectangle`, `cv2.putText`, `cv2.imwrite`) are not modelled. Only the snapshot path is kept.
- CSV file writing, the `os.makedirs` setup and the console messages (including the every-50-frames progress line) are I/O. The model keeps the log path and the fixed column list `LogColumns`; the rows are the `Event` records.
- Outputs.Timestamp: the log's `round(ts, 2)` is not modelled, so `time_seconds` is the exact quotient. Float rounding is outside the model.
- The `time_hhmmss` column (`str(timedelta(seconds=int(ts)))`) is not modelled. It is library string formatting.
- `Join` follows POSIX `os.path.join`. Windows separators are not modelled.
- Coordinates and areas are exact reals. IEEE floating-point rounding of the IoU, the area ratio and the timestamp is not modelled.
- The capture wrappers `process_uploaded_video`, `process_webcam` and `process_phone_ip_cam` are not modelled. They open devices and streams and adapt them into generators. Only the live-camera fps fallback is kept, as `CaptureFps`; the upload mode's `or 25.0` fallback and the `int(fps * duration_sec)` budget are not modelled.
- The loop's final `frame_idx` when the budget stops the run (N+1) is not returned. The model's state counts only processed frames, and the source never returns the index.
- ui/gradio_app.py is not part of this model. It is UI layout and a patch of a third-party library.
