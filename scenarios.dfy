/** Small runs worked through the model: a steady car, a car that grows
    suddenly, the same growth on a non-vehicle, and a frame budget of one. */
module Scenarios {
  import opened Geometry
  import opened Vehicles
  import opened Heuristic
  import opened Analysis

  /** A detection of the given class with box [0, 0, side, side]. */
  function Square(className: string, side: real): Detection
  {
    Detection(className, Box(0.0, 0.0, side, side))
  }

  /** A clip at 25 frames per second, IoU threshold 0.5, growth factor 1.5. */
  const Demo: Config := Config("clip", 25.0, Thresholds(0.5, 1.5), None)

  lemma QuotientAtLeast(n: real, d: real, g: real)
    requires d > 0.0 && n >= g * d
    ensures n / d >= g
  {
    assert n / d - g == (n - g * d) / d;
  }

  lemma QuotientBelow(n: real, d: real, g: real)
    requires d > 0.0 && n < g * d
    ensures n / d < g
  {
    assert n / d - g == (n - g * d) / d;
  }

  /** With one box on each side, a frame is flagged exactly when that pair
      triggers. */
  lemma FlaggedSingletons(c: VehicleBox, p: VehicleBox, t: Thresholds)
    ensures Flagged([c], [p], t) <==> TriggerPair(c, p, t)
  {
    if TriggerPair(c, p, t) {
      assert TriggerPair([c][0], [p][0], t);
    }
  }

  /** The state after the first frame of a run: its vehicles remembered, no
      event. */
  lemma FirstStep(f0: seq<Detection>, cfg: Config)
    ensures Run([f0], cfg) == RunState(VehicleBoxes(f0), 0, 1, [], [])
  {
    assert [f0][..0] == [];
  }

  lemma SecondStep(f0: seq<Detection>, f1: seq<Detection>, cfg: Config)
    ensures Run([f0, f1], cfg) == Step(RunState(VehicleBoxes(f0), 0, 1, [], []), f1, cfg)
  {
    assert [f0, f1][..1] == [f0];
    FirstStep(f0, cfg);
  }

  /** The same 10x10 car on two frames: growth 1.0 is below 1.5, no event. */
  lemma SteadyCarNoEvent()
    ensures Run([[Square("car", 10.0)], [Square("car", 10.0)]], Demo).events == []
  {
    var f := [Square("car", 10.0)];
    var b := VehicleBox(Box(0.0, 0.0, 10.0, 10.0), 100.0, "car");
    assert VehicleBoxes(f) == [b];
    QuotientBelow(100.0, 100.000001, 1.5);
    assert !TriggerPair(b, b, Demo.thresholds);
    FlaggedSingletons(b, b, Demo.thresholds);
    SecondStep(f, f, Demo);
  }

  /** The 13x13 box over the 10x10 box: IoU 100/169.000001 is at least 0.5
      and growth 169/100.000001 at least 1.5. */
  lemma GrowingPairTriggers()
    ensures TriggerPair(VehicleBox(Box(0.0, 0.0, 13.0, 13.0), 169.0, "car"),
                        VehicleBox(Box(0.0, 0.0, 10.0, 10.0), 100.0, "car"), Demo.thresholds)
  {
    var p := Box(0.0, 0.0, 10.0, 10.0);
    var c := Box(0.0, 0.0, 13.0, 13.0);
    assert Overlap(c, p) == p;
    assert Area(p) == 100.0 && Area(c) == 169.0;
    assert Iou(c, p) == 100.0 / 169.000001;
    QuotientAtLeast(100.0, 169.000001, 0.5);
    QuotientAtLeast(169.0, 100.000001, 1.5);
  }

  /** Event 1 on frame 2 of the demo clip is stamped 2/25 seconds. */
  lemma FirstEventTime()
    ensures NewEvent(Demo, 1, 2).timeSeconds == 0.08
  {
  }

  /** A 10x10 car followed by a 13x13 car: event 1 is recorded on frame 2. */
  lemma GrowingCarEvent()
    ensures Run([[Square("car", 10.0)], [Square("car", 13.0)]], Demo).events == [NewEvent(Demo, 1, 2)]
  {
    var f0, f1 := [Square("car", 10.0)], [Square("car", 13.0)];
    var p := VehicleBox(Box(0.0, 0.0, 10.0, 10.0), 100.0, "car");
    var c := VehicleBox(Box(0.0, 0.0, 13.0, 13.0), 169.0, "car");
    assert VehicleBoxes(f0) == [p];
    assert VehicleBoxes(f1) == [c];
    GrowingPairTriggers();
    FlaggedSingletons(c, p, Demo.thresholds);
    SecondStep(f0, f1, Demo);
  }

  /** The same growth on a person is ignored: only vehicles are compared. */
  lemma GrowingPersonNoEvent()
    ensures Run([[Square("person", 10.0)], [Square("person", 13.0)]], Demo).events == []
  {
    var f0, f1 := [Square("person", 10.0)], [Square("person", 13.0)];
    assert VehicleBoxes(f0) == [];
    assert VehicleBoxes(f1) == [];
    SecondStep(f0, f1, Demo);
  }

  /** With a budget of one frame the growing car's second frame is never
      processed, so no event is recorded. */
  lemma BudgetOfOneFrame()
    ensures Processed([Some([Square("car", 10.0)]), Some([Square("car", 13.0)])], Some(1))
            == [[Square("car", 10.0)]]
    ensures Run(Processed([Some([Square("car", 10.0)]), Some([Square("car", 13.0)])], Some(1)), Demo).events == []
  {
    var input := [Some([Square("car", 10.0)]), Some([Square("car", 13.0)])];
    assert input[1..][1..] == [];
    assert PulledCount(input) == 2;
    assert Processed(input, Some(1)) == [[Square("car", 10.0)]];
    FirstStep([Square("car", 10.0)], Demo);
  }
}
