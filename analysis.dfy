/** analyze_frames: the frame-by-frame loop that remembers the previous
    frame's vehicles, flags frames by the heuristic and keeps the event log.
    The detector is opaque: each frame arrives as its list of detections. */
module Analysis {
  import opened Geometry
  import opened Vehicles
  import opened Heuristic
  import opened Outputs

  datatype Option<T> = None | Some(value: T)

  /** The parameters of one run: the name its outputs are built from, the
      nominal frame rate, the two thresholds and the optional frame budget. */
  datatype Config = Config(baseName: string, fps: real, thresholds: Thresholds, maxFrames: Option<int>)

  /** One row of the event log (its time_hhmmss column is not modelled). */
  datatype Event = Event(eventId: nat, frame: nat, timeSeconds: real, snapshotPath: string)

  /** The loop's state: the one-frame memory, the event counter, the 1-based
      index of the last processed frame, the events and the snapshot paths. */
  datatype RunState = RunState(
    prevBoxes: seq<VehicleBox>,
    counter: nat,
    frameIdx: nat,
    events: seq<Event>,
    snapshots: seq<string>)

  const Start: RunState := RunState([], 0, 0, [], [])

  /** The event recorded for event number eventId, seen on frame. */
  function NewEvent(cfg: Config, eventId: nat, frame: nat): Event
  {
    Event(eventId, frame, Timestamp(frame, cfg.fps), SnapshotPath(cfg.baseName, eventId, frame))
  }

  /** One frame that reaches detection: its index is bumped, a flagged frame
      appends the next event, and the memory becomes this frame's vehicles. */
  function Step(s: RunState, dets: seq<Detection>, cfg: Config): RunState
  {
    var idx := s.frameIdx + 1;
    var curr := VehicleBoxes(dets);
    if Flagged(curr, s.prevBoxes, cfg.thresholds) then
      var e := NewEvent(cfg, s.counter + 1, idx);
      RunState(curr, s.counter + 1, idx, s.events + [e], s.snapshots + [e.snapshotPath])
    else
      RunState(curr, s.counter, idx, s.events, s.snapshots)
  }

  /** The state after processing the given frames in order from the start. */
  function Run(frames: seq<seq<Detection>>, cfg: Config): RunState
  {
    if frames == [] then Start
    else Step(Run(frames[..|frames| - 1], cfg), frames[|frames| - 1], cfg)
  }

  /** The number of frames the source yields before the first missing one. */
  function PulledCount(input: seq<Option<seq<Detection>>>): (n: nat)
    ensures n <= |input|
    ensures forall k :: 0 <= k < n ==> input[k].Some?
    ensures n < |input| ==> input[n].None?
  {
    if input == [] || input[0].None? then 0 else 1 + PulledCount(input[1..])
  }

  /** How many of n pulled frames a frame budget lets through. */
  function Budget(maxFrames: Option<int>, n: nat): (r: nat)
    ensures r <= n
    ensures maxFrames.None? ==> r == n
    ensures maxFrames.Some? ==> r <= maxFrames.value || r == 0
    ensures maxFrames.Some? && r < n ==> r == maxFrames.value || (r == 0 && maxFrames.value <= 0)
  {
    match maxFrames
    case None => n
    case Some(m) => if m <= 0 then 0 else if m < n then m else n
  }

  /** The detections of the first n frames, all of them present. */
  function Values(input: seq<Option<seq<Detection>>>, n: nat): (frames: seq<seq<Detection>>)
    requires n <= |input|
    requires forall k :: 0 <= k < n ==> input[k].Some?
    ensures |frames| == n
    ensures forall k :: 0 <= k < n ==> input[k] == Some(frames[k])
  {
    seq(n, k requires 0 <= k < n => input[k].value)
  }

  /** The frames that reach detection: those before the first missing frame,
      cut to the frame budget when there is one. */
  function Processed(input: seq<Option<seq<Detection>>>, maxFrames: Option<int>): (frames: seq<seq<Detection>>)
    ensures |frames| <= PulledCount(input)
    ensures maxFrames.Some? ==> |frames| <= maxFrames.value || |frames| == 0
    ensures maxFrames.None? ==> |frames| == PulledCount(input)
    ensures |frames| == Budget(maxFrames, PulledCount(input))
    ensures forall k :: 0 <= k < |frames| ==> input[k] == Some(frames[k])
  {
    Values(input, Budget(maxFrames, PulledCount(input)))
  }

  /** What the event log promises: ids 1..k in order, frames strictly
      increasing within 1..frames, and each event's time and snapshot path
      derived from its own frame and id. */
  predicate EventLogValid(events: seq<Event>, frames: nat, cfg: Config)
  {
    && (forall k :: 0 <= k < |events| ==> events[k].eventId == k + 1)
    && (forall k :: 0 <= k < |events| ==> 1 <= events[k].frame <= frames)
    && (forall k, l :: 0 <= k < l < |events| ==> events[k].frame < events[l].frame)
    && (forall k :: 0 <= k < |events| ==> events[k] == NewEvent(cfg, k + 1, events[k].frame))
  }

  /** The loop's invariant: the log is valid, the counter counts it, and the
      snapshot list is the log's paths. */
  predicate StateValid(s: RunState, cfg: Config)
  {
    && EventLogValid(s.events, s.frameIdx, cfg)
    && s.counter == |s.events|
    && |s.snapshots| == |s.events|
    && (forall k :: 0 <= k < |s.events| ==> s.snapshots[k] == s.events[k].snapshotPath)
  }

  /** A log stays valid when one more frame is processed without an event. */
  lemma LogValidLater(events: seq<Event>, frames: nat, cfg: Config)
    requires EventLogValid(events, frames, cfg)
    ensures EventLogValid(events, frames + 1, cfg)
  {
  }

  /** A log stays valid when the next event is recorded on the new frame. */
  lemma LogValidAppend(events: seq<Event>, frames: nat, cfg: Config)
    requires EventLogValid(events, frames, cfg)
    ensures EventLogValid(events + [NewEvent(cfg, |events| + 1, frames + 1)], frames + 1, cfg)
  {
    var e := NewEvent(cfg, |events| + 1, frames + 1);
    var events' := events + [e];
    assert forall k :: 0 <= k < |events| ==> events'[k] == events[k];
    assert events'[|events|] == e;
  }

  /** The snapshot list keeps matching the log when both grow by one event. */
  lemma SnapshotsAppend(events: seq<Event>, snapshots: seq<string>, e: Event)
    requires |snapshots| == |events|
    requires forall k :: 0 <= k < |events| ==> snapshots[k] == events[k].snapshotPath
    ensures forall k :: 0 <= k < |events| + 1 ==>
              (snapshots + [e.snapshotPath])[k] == (events + [e])[k].snapshotPath
  {
  }

  /** One step keeps the invariant and replaces the memory, flagged or not. */
  lemma StepValid(s: RunState, dets: seq<Detection>, cfg: Config)
    requires StateValid(s, cfg)
    ensures StateValid(Step(s, dets, cfg), cfg)
    ensures Step(s, dets, cfg).frameIdx == s.frameIdx + 1
    ensures Step(s, dets, cfg).prevBoxes == VehicleBoxes(dets)
    ensures |Step(s, dets, cfg).events| <= |s.events| + 1
    ensures Step(s, dets, cfg).events[..|s.events|] == s.events
  {
    var curr := VehicleBoxes(dets);
    var idx := s.frameIdx + 1;
    if Flagged(curr, s.prevBoxes, cfg.thresholds) {
      var e := NewEvent(cfg, s.counter + 1, idx);
      assert Step(s, dets, cfg) == RunState(curr, s.counter + 1, idx, s.events + [e], s.snapshots + [e.snapshotPath]);
      LogValidAppend(s.events, s.frameIdx, cfg);
      SnapshotsAppend(s.events, s.snapshots, e);
      assert (s.events + [e])[..|s.events|] == s.events;
    } else {
      assert Step(s, dets, cfg) == RunState(curr, s.counter, idx, s.events, s.snapshots);
      LogValidLater(s.events, s.frameIdx, cfg);
    }
  }

  /** After n frames the invariant holds, frameIdx is n and the memory holds
      the vehicles of the last frame (none before the first). */
  lemma {:induction false} RunValid(frames: seq<seq<Detection>>, cfg: Config)
    ensures StateValid(Run(frames, cfg), cfg)
    ensures Run(frames, cfg).frameIdx == |frames|
    ensures Run(frames, cfg).prevBoxes == if frames == [] then [] else VehicleBoxes(frames[|frames| - 1])
  {
    if frames != [] {
      RunValid(frames[..|frames| - 1], cfg);
      StepValid(Run(frames[..|frames| - 1], cfg), frames[|frames| - 1], cfg);
    }
  }

  /** The heuristic's verdict on frame f (1-based) of a run: its vehicles
      against those of frame f-1, or against nothing on the first frame. */
  predicate FrameFlagged(frames: seq<seq<Detection>>, f: nat, t: Thresholds)
    requires 1 <= f <= |frames|
  {
    Flagged(VehicleBoxes(frames[f - 1]), if f == 1 then [] else VehicleBoxes(frames[f - 2]), t)
  }

  predicate HasEventAt(events: seq<Event>, f: nat)
  {
    exists k :: 0 <= k < |events| && events[k].frame == f
  }

  lemma HasEventAppend(events: seq<Event>, e: Event, f: nat)
    ensures HasEventAt(events + [e], f) <==> HasEventAt(events, f) || e.frame == f
  {
    var events' := events + [e];
    if HasEventAt(events', f) {
      var k :| 0 <= k < |events'| && events'[k].frame == f;
      if k < |events| {
        assert events[k].frame == f;
      }
    }
    if HasEventAt(events, f) {
      var k :| 0 <= k < |events| && events[k].frame == f;
      assert events'[k].frame == f;
    }
    if e.frame == f {
      assert events'[|events|].frame == f;
    }
  }

  /** One step adds an event on the new frame exactly when that frame is
      flagged against the remembered boxes, and keeps the earlier events. */
  lemma StepEvents(s: RunState, dets: seq<Detection>, cfg: Config, f: nat)
    requires StateValid(s, cfg)
    ensures HasEventAt(Step(s, dets, cfg).events, f) <==>
              HasEventAt(s.events, f) ||
              (f == s.frameIdx + 1 && Flagged(VehicleBoxes(dets), s.prevBoxes, cfg.thresholds))
  {
    if Flagged(VehicleBoxes(dets), s.prevBoxes, cfg.thresholds) {
      HasEventAppend(s.events, NewEvent(cfg, s.counter + 1, s.frameIdx + 1), f);
    }
  }

  /** Events only name processed frames. */
  lemma EventsWithinRun(s: RunState, cfg: Config, f: nat)
    requires StateValid(s, cfg)
    requires HasEventAt(s.events, f)
    ensures 1 <= f <= s.frameIdx
  {
  }

  /** The log holds an event on frame f exactly when f was processed and the
      heuristic flagged it. */
  lemma {:induction false} EventFramesExact(frames: seq<seq<Detection>>, cfg: Config, f: nat)
    ensures HasEventAt(Run(frames, cfg).events, f) <==>
              1 <= f <= |frames| && FrameFlagged(frames, f, cfg.thresholds)
  {
    if frames == [] {
      assert Run(frames, cfg) == Start;
    } else {
      var n := |frames|;
      var front := frames[..n - 1];
      var s := Run(front, cfg);
      assert Run(frames, cfg) == Step(s, frames[n - 1], cfg);
      RunValid(front, cfg);
      StepEvents(s, frames[n - 1], cfg, f);
      EventFramesExact(front, cfg, f);
      if HasEventAt(s.events, f) {
        EventsWithinRun(s, cfg, f);
      }
      if 1 <= f < n {
        assert frames[f - 1] == front[f - 1];
        assert f >= 2 ==> frames[f - 2] == front[f - 2];
        assert FrameFlagged(frames, f, cfg.thresholds) == FrameFlagged(front, f, cfg.thresholds);
      }
    }
  }

  /** The first frame of a run never produces an event. */
  lemma NoEventOnFirstFrame(frames: seq<seq<Detection>>, cfg: Config)
    ensures !HasEventAt(Run(frames, cfg).events, 1)
  {
    EventFramesExact(frames, cfg, 1);
  }

  /** No vehicle of one frame shares area with a vehicle of another. */
  predicate NoOverlapBetween(curr: seq<Detection>, prev: seq<Detection>)
  {
    var c, p := VehicleBoxes(curr), VehicleBoxes(prev);
    forall i, j :: 0 <= i < |c| && 0 <= j < |p| ==> Disjoint(c[i].coords, p[j].coords)
  }

  /** With a positive IoU threshold, boxes that share no area never trigger. */
  lemma NoOverlapNotFlagged(curr: seq<Detection>, prev: seq<Detection>, t: Thresholds)
    requires t.iou > 0.0
    requires NoOverlapBetween(curr, prev)
    ensures !Flagged(VehicleBoxes(curr), VehicleBoxes(prev), t)
  {
    var c, p := VehicleBoxes(curr), VehicleBoxes(prev);
    forall i, j | 0 <= i < |c| && 0 <= j < |p|
      ensures !TriggerPair(c[i], p[j], t)
    {
      assert Iou(c[i].coords, p[j].coords) == 0.0;
    }
  }

  /** With a positive IoU threshold, a run in which no vehicle shares area
      with any vehicle of the frame before records no event and writes no
      snapshot. */
  lemma NoOverlapNoEvents(frames: seq<seq<Detection>>, cfg: Config)
    requires cfg.thresholds.iou > 0.0
    requires forall f :: 1 <= f < |frames| ==> NoOverlapBetween(frames[f], frames[f - 1])
    ensures Run(frames, cfg).events == []
    ensures Run(frames, cfg).snapshots == []
  {
    var events := Run(frames, cfg).events;
    RunValid(frames, cfg);
    forall f | 0 <= f
      ensures !HasEventAt(events, f)
    {
      EventFramesExact(frames, cfg, f);
      if 2 <= f <= |frames| {
        NoOverlapNotFlagged(frames[f - 1], frames[f - 2], cfg.thresholds);
      }
    }
    if events != [] {
      assert HasEventAt(events, events[0].frame);
    }
  }

  /** The live-camera rate fallback: a rate that is not positive or above
      120 becomes 15. */
  function CaptureFps(reported: real): (fps: real)
    ensures 0.0 < fps <= 120.0
    ensures 0.0 < reported <= 120.0 ==> fps == reported
  {
    if reported <= 0.0 || reported > 120.0 then 15.0 else reported
  }

  /** Running one more present frame is one more step. */
  lemma RunOneMore(input: seq<Option<seq<Detection>>>, i: nat, cfg: Config)
    requires i < |input|
    requires forall k :: 0 <= k <= i ==> input[k].Some?
    ensures Run(Values(input, i + 1), cfg) == Step(Run(Values(input, i), cfg), input[i].value, cfg)
  {
    assert Values(input, i + 1)[..i] == Values(input, i);
  }

  /** Where the loop stops, the frames it processed are exactly Processed. */
  lemma StopsAtProcessed(input: seq<Option<seq<Detection>>>, maxFrames: Option<int>, i: nat)
    requires i <= |input|
    requires forall k :: 0 <= k < i ==> input[k].Some?
    requires maxFrames.Some? ==> i <= maxFrames.value || i == 0
    requires i == |input| || input[i].None? || (maxFrames.Some? && i + 1 > maxFrames.value)
    ensures Processed(input, maxFrames) == Values(input, i)
  {
    var n := PulledCount(input);
    assert i <= n;
    assert i == Budget(maxFrames, n);
  }

  /** analyze_frames: pull frames until the source ends or yields a missing
      frame, bump the frame index, stop once it exceeds the budget, filter
      the vehicles, test them against the previous frame's, and on a flagged
      frame record the next event and its snapshot path. */
  method AnalyzeFrames(input: seq<Option<seq<Detection>>>, cfg: Config)
    returns (snapshotPaths: seq<string>, logPath: string, events: seq<Event>)
    ensures var s := Run(Processed(input, cfg.maxFrames), cfg);
              events == s.events && snapshotPaths == s.snapshots
    ensures EventLogValid(events, |Processed(input, cfg.maxFrames)|, cfg)
    ensures |snapshotPaths| == |events|
    ensures logPath == LogPath(cfg.baseName)
  {
    logPath := LogPath(cfg.baseName);
    var prevBoxes: seq<VehicleBox> := [];
    events, snapshotPaths := [], [];
    var counter: nat := 0;
    var frameIdx: nat := 0;
    var i := 0;
    while i < |input|
      invariant 0 <= i <= |input| && frameIdx == i
      invariant forall k :: 0 <= k < i ==> input[k].Some?
      invariant cfg.maxFrames.Some? ==> i <= cfg.maxFrames.value || i == 0
      invariant RunState(prevBoxes, counter, frameIdx, events, snapshotPaths) == Run(Values(input, i), cfg)
    {
      var frame := input[i];
      if frame.None? {
        break;
      }
      frameIdx := frameIdx + 1;
      if cfg.maxFrames.Some? && frameIdx > cfg.maxFrames.value {
        break;
      }
      RunOneMore(input, i, cfg);
      var currBoxes := FilterVehicles(frame.value);
      var accident := FindTrigger(currBoxes, prevBoxes, cfg.thresholds);
      if accident {
        counter := counter + 1;
        var ts := Timestamp(frameIdx, cfg.fps);
        var path := SnapshotPath(cfg.baseName, counter, frameIdx);
        snapshotPaths := snapshotPaths + [path];
        events := events + [Event(counter, frameIdx, ts, path)];
      }
      prevBoxes := currBoxes;
      i := i + 1;
    }
    StopsAtProcessed(input, cfg.maxFrames, i);
    RunValid(Values(input, i), cfg);
  }
}
