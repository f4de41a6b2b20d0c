/** The per-frame accident test: some current vehicle overlaps some vehicle
    of the previous frame heavily and its area has grown suddenly. */
module Heuristic {
  import opened Geometry
  import opened Vehicles

  /** accident_iou_thres and area_growth_factor. */
  datatype Thresholds = Thresholds(iou: real, growth: real)

  /** Area ratio of a current box over a previous one; Eps keeps it defined. */
  function Growth(cb: VehicleBox, pb: VehicleBox): real
    requires pb.area >= 0.0
  {
    cb.area / (pb.area + Eps)
  }

  /** A (current, previous) pair that fires the heuristic. */
  predicate TriggerPair(cb: VehicleBox, pb: VehicleBox, t: Thresholds)
  {
    Iou(cb.coords, pb.coords) >= t.iou && pb.area > 0.0 && Growth(cb, pb) >= t.growth
  }

  /** A frame is flagged when at least one trigger pair exists. With no
      current or no previous vehicle it is never flagged. */
  predicate Flagged(curr: seq<VehicleBox>, prev: seq<VehicleBox>, t: Thresholds): (r: bool)
    ensures r ==> curr != [] && prev != []
  {
    exists i, j :: 0 <= i < |curr| && 0 <= j < |prev| && TriggerPair(curr[i], prev[j], t)
  }

  /** The nested search over current x previous boxes, leaving both loops at
      the first trigger pair found. */
  method FindTrigger(curr: seq<VehicleBox>, prev: seq<VehicleBox>, t: Thresholds)
    returns (found: bool)
    ensures found <==> Flagged(curr, prev, t)
  {
    found := false;
    var i := 0;
    while i < |curr|
      invariant 0 <= i <= |curr|
      invariant !found
      invariant forall a, b :: 0 <= a < i && 0 <= b < |prev| ==> !TriggerPair(curr[a], prev[b], t)
    {
      var cb := curr[i];
      var j := 0;
      while j < |prev|
        invariant 0 <= j <= |prev|
        invariant !found
        invariant forall b :: 0 <= b < j ==> !TriggerPair(cb, prev[b], t)
      {
        var pb := prev[j];
        var iou := Iou(cb.coords, pb.coords);
        if iou >= t.iou && pb.area > 0.0 {
          var growth := cb.area / (pb.area + Eps);
          if growth >= t.growth {
            found := true;
            break;
          }
        }
        j := j + 1;
      }
      if found {
        break;
      }
      i := i + 1;
    }
  }

  /** With a growth factor of at least 1, a trigger pair's current box is
      strictly larger than its previous box. */
  lemma TriggerGrows(cb: VehicleBox, pb: VehicleBox, t: Thresholds)
    requires t.growth >= 1.0 && cb.area >= 0.0
    requires TriggerPair(cb, pb, t)
    ensures cb.area > pb.area
  {
    var d := pb.area + Eps;
    var g := Growth(cb, pb);
    assert g * d == cb.area;
    ProductMonotone(1.0, d, g, d);
  }

  /** With a positive IoU threshold, a trigger pair's boxes share area. */
  lemma TriggerOverlaps(cb: VehicleBox, pb: VehicleBox, t: Thresholds)
    requires t.iou > 0.0
    requires TriggerPair(cb, pb, t)
    ensures !Disjoint(cb.coords, pb.coords)
  {
  }
}
