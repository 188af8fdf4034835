/**
 * The helpers of version 1.0.6, whose detector reports a prediction with
 * `keypoints` of `{x, y}` points, or no prediction at all. An absent
 * prediction selects nothing (and so has no box, and two zero nose areas);
 * a present prediction without keypoints fails the selection.
 */
module HelpersV106 {
  import opened Geometry

  /** A detection result: no prediction, or a prediction whose `keypoints`
      are `None` when the field is missing. */
  datatype Prediction = NoPrediction | Prediction(keypoints: Option<seq<Point>>)

  /** The detector's guarantee: keypoints, when there are any, hold either
      no points or every point of the base mesh. */
  predicate MeshComplete(p: Prediction)
  {
    p.Prediction? && p.keypoints.Some? ==>
      |p.keypoints.value| == 0 || |p.keypoints.value| >= MAX_MESH_POINT
  }

  /** The guard of the selection: a present prediction with non-empty
      keypoints, which by the detector's guarantee hold every base point. */
  predicate HasUsableMesh(p: Prediction): (usable: bool)
    ensures usable ==> p.Prediction? && p.keypoints.Some?
    ensures usable && MeshComplete(p) ==> |p.keypoints.value| >= MAX_MESH_POINT
  {
    p.Prediction? && p.keypoints.Some? && |p.keypoints.value| > 0
  }

  /** The keypoints at the base-mesh indices of `meshPointIdx`, in order;
      nothing for an absent prediction, a failure for a present one without
      keypoints. */
  function SelectedScaledMesh(p: Prediction, meshPointIdx: seq<nat>): (r: Result<seq<Point>>)
    requires MeshComplete(p)
    ensures p.NoPrediction? ==> r == Success([])
    ensures r.Success? <==> p.NoPrediction? || HasUsableMesh(p)
    ensures HasUsableMesh(p) ==>
      var kept := KeepMeshIndices(meshPointIdx);
      && |r.value| == |kept|
      && forall k :: 0 <= k < |kept| ==> r.value[k] == p.keypoints.value[kept[k]]
  {
    if p.NoPrediction? then Success([])
    else if HasUsableMesh(p) then Success(SelectFromMesh(p.keypoints.value, meshPointIdx))
    else EmptyDetectionFailure
  }

  /** Selecting a table of base-mesh indices (such as the three fixed
      tables) from a usable prediction yields, for entry k of the table,
      the keypoint it names. */
  lemma SelectedTable(p: Prediction, table: seq<nat>)
    requires MeshComplete(p) && HasUsableMesh(p)
    requires InBaseMesh(table)
    ensures |SelectedScaledMesh(p, table).value| == |table|
    ensures forall k :: 0 <= k < |table| ==>
      SelectedScaledMesh(p, table).value[k] == p.keypoints.value[table[k]]
  {
    SelectInBaseMesh(p.keypoints.value, table);
  }

  lemma SelectedTables(p: Prediction)
    requires MeshComplete(p) && HasUsableMesh(p)
    ensures |SelectedScaledMesh(p, SILHOUETTE).value| == 36
    ensures |SelectedScaledMesh(p, LEFT_NOSE).value| == 16
    ensures |SelectedScaledMesh(p, RIGHT_NOSE).value| == 16
  {
    TablesInBaseMesh();
    SelectedTable(p, SILHOUETTE);
    SelectedTable(p, LEFT_NOSE);
    SelectedTable(p, RIGHT_NOSE);
  }

  /** The face box: `None` when there is no prediction (the minimum and
      maximum of no coordinates are not a box), the tight box around the
      silhouette points otherwise, or the selection's failure.
      The JavaScript helpers read the coordinates as `coord[0]` and `coord[1]`, which
      the `{x, y}` keypoints of this version do not have; the box here is
      taken over the points' x and y coordinates. */
  function AdjustedFaceBox(p: Prediction): (r: Result<Option<Box>>)
    requires MeshComplete(p)
    ensures r.Success? <==> p.NoPrediction? || HasUsableMesh(p)
    ensures p.NoPrediction? ==> r == Success(None)
    ensures HasUsableMesh(p) ==>
      r.value.Some? && TightBox(r.value.value, SelectedScaledMesh(p, SILHOUETTE).value)
  {
    match SelectedScaledMesh(p, SILHOUETTE)
    case EmptyDetectionFailure => EmptyDetectionFailure
    case Success(outline) =>
      assert HasUsableMesh(p) ==> |outline| == 36 by {
        if HasUsableMesh(p) { SelectedTables(p); }
      }
      Success(BoxOf(outline))
  }

  /** The face direction from the areas of the two nose polygons, or the
      selection's failure. */
  function FaceDirection(p: Prediction, factor: real): (r: Result<DirectionRecord>)
    requires MeshComplete(p)
    ensures r.Success? <==> p.NoPrediction? || HasUsableMesh(p)
    ensures r.Success? ==>
      && r.value.leftNoseArea == PolygonArea(SelectedScaledMesh(p, LEFT_NOSE).value)
      && r.value.rightNoseArea == PolygonArea(SelectedScaledMesh(p, RIGHT_NOSE).value)
      && Consistent(r.value, factor)
  {
    match (SelectedScaledMesh(p, LEFT_NOSE), SelectedScaledMesh(p, RIGHT_NOSE))
    case (Success(leftNose), Success(rightNose)) => Success(DirectionOf(leftNose, rightNose, factor))
    case _ => EmptyDetectionFailure
  }

  /** With no prediction both nose polygons are empty, so both areas are 0,
      the ratio 0 / 0 is NaN, both comparisons are false and the direction
      is left. */
  lemma NoPredictionLooksLeft(factor: real)
    ensures FaceDirection(NoPrediction, factor) == Success(DirectionRecord(0.0, 0.0, NotANumber, Left))
  {
    assert PolygonArea([]) == 0.0;
  }
}
