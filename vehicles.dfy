/** The vehicle filter: a frame's raw detections reduced to the vehicle
    records {coords, area, label} that the heuristic compares. */
module Vehicles {
  import opened Geometry

  /** One detector output: its class label, already resolved to a name, and
      its box. The confidence threshold is applied by the detector itself. */
  datatype Detection = Detection(className: string, box: Box)

  /** A kept vehicle: its box, its clamped area and its label. */
  datatype VehicleBox = VehicleBox(coords: Box, area: real, className: string)

  /** The class names the heuristic considers. */
  const VehicleClasses: set<string> := {"car", "motorbike", "bus", "truck"}

  predicate IsVehicle(d: Detection)
  {
    d.className in VehicleClasses
  }

  function ToVehicleBox(d: Detection): VehicleBox
  {
    VehicleBox(d.box, Area(d.box), d.className)
  }

  /** The records the filter loop appends, for the detections in order. */
  function VehicleBoxes(dets: seq<Detection>): (r: seq<VehicleBox>)
    ensures |r| <= |dets|
    ensures forall k :: 0 <= k < |r| ==>
              r[k].className in VehicleClasses && r[k].area >= 0.0 && r[k].area == Area(r[k].coords)
  {
    if dets == [] then []
    else
      var last := dets[|dets| - 1];
      VehicleBoxes(dets[..|dets| - 1]) + (if IsVehicle(last) then [ToVehicleBox(last)] else [])
  }

  /** The positions of the vehicle detections, listed independently of the
      filter: increasing, each one a vehicle, and none missing. */
  function KeptIndices(dets: seq<Detection>): (r: seq<nat>)
    ensures forall k :: 0 <= k < |r| ==> r[k] < |dets| && IsVehicle(dets[r[k]])
    ensures forall k, l :: 0 <= k < l < |r| ==> r[k] < r[l]
    ensures forall i :: 0 <= i < |dets| && IsVehicle(dets[i]) ==> i in r
  {
    if dets == [] then []
    else
      var n := |dets| - 1;
      var front := KeptIndices(dets[..n]);
      assert forall i :: 0 <= i < n ==> dets[..n][i] == dets[i];
      front + (if IsVehicle(dets[n]) then [n] else [])
  }

  /** The filter keeps exactly the vehicle detections, in input order, each
      mapped to its record with the clamped area. */
  lemma {:induction false} VehicleBoxesExact(dets: seq<Detection>)
    ensures |VehicleBoxes(dets)| == |KeptIndices(dets)|
    ensures forall k :: 0 <= k < |VehicleBoxes(dets)| ==>
              VehicleBoxes(dets)[k] == ToVehicleBox(dets[KeptIndices(dets)[k]])
  {
    if dets != [] {
      var n := |dets| - 1;
      VehicleBoxesExact(dets[..n]);
      assert forall i :: 0 <= i < n ==> dets[..n][i] == dets[i];
    }
  }

  /** The filter loop of one frame: append a record for every vehicle. */
  method FilterVehicles(dets: seq<Detection>) returns (boxes: seq<VehicleBox>)
    ensures boxes == VehicleBoxes(dets)
  {
    boxes := [];
    for i := 0 to |dets|
      invariant boxes == VehicleBoxes(dets[..i])
    {
      assert dets[..i + 1][..i] == dets[..i] && dets[..i + 1][i] == dets[i];
      var d := dets[i];
      if d.className in VehicleClasses {
        var area := Clamp(d.box.x2 - d.box.x1) * Clamp(d.box.y2 - d.box.y1);
        boxes := boxes + [VehicleBox(d.box, area, d.className)];
      }
      assert boxes == VehicleBoxes(dets[..i + 1]);
    }
    assert dets[..|dets|] == dets;
  }
}
