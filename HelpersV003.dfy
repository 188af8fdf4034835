/**
 * The helpers of version 0.0.3, whose detector reports a prediction with a
 * `kind` tag and a `scaledMesh` of `[x, y]` points. Any selection from a
 * prediction that is not a MediaPipe prediction with a non-empty mesh fails,
 * and the failure propagates out of the box and the direction computations.
 */
module HelpersV003 {
  import opened Geometry

  /** The `kind` tag of a face-mesh prediction. */
  const MEDIAPIPE_KIND: string := "MediaPipePredictionValues"

  /** A detection; `scaledMesh` is `None` when the field is missing. */
  datatype Prediction = Prediction(kind: string, scaledMesh: Option<seq<Point>>)

  /** The detector's guarantee: a mesh, when there is one, holds either no
      points or every point of the base mesh. */
  predicate MeshComplete(p: Prediction)
  {
    p.scaledMesh.Some? ==> |p.scaledMesh.value| == 0 || |p.scaledMesh.value| >= MAX_MESH_POINT
  }

  /** The guard of the selection: a MediaPipe prediction with a non-empty
      mesh, which by the detector's guarantee holds every base point. */
  predicate HasUsableMesh(p: Prediction): (usable: bool)
    ensures usable ==> p.scaledMesh.Some?
    ensures usable && MeshComplete(p) ==> |p.scaledMesh.value| >= MAX_MESH_POINT
  {
    p.kind == MEDIAPIPE_KIND && p.scaledMesh.Some? && |p.scaledMesh.value| > 0
  }

  /** The mesh points at the base-mesh indices of `meshPointIdx`, in order;
      a failure, never a partial result, for an unusable prediction. */
  function SelectedScaledMesh(p: Prediction, meshPointIdx: seq<nat>): (r: Result<seq<Point>>)
    requires MeshComplete(p)
    ensures r.Success? <==> HasUsableMesh(p)
    ensures r.Success? ==>
      var kept := KeepMeshIndices(meshPointIdx);
      && |r.value| == |kept|
      && forall k :: 0 <= k < |kept| ==> r.value[k] == p.scaledMesh.value[kept[k]]
  {
    if HasUsableMesh(p) then Success(SelectFromMesh(p.scaledMesh.value, meshPointIdx))
    else EmptyDetectionFailure
  }

  /** Selecting a table of base-mesh indices (such as the three fixed
      tables) from a usable prediction yields, for entry k of the table,
      the mesh point it names. */
  lemma SelectedTable(p: Prediction, table: seq<nat>)
    requires MeshComplete(p) && HasUsableMesh(p)
    requires InBaseMesh(table)
    ensures |SelectedScaledMesh(p, table).value| == |table|
    ensures forall k :: 0 <= k < |table| ==>
      SelectedScaledMesh(p, table).value[k] == p.scaledMesh.value[table[k]]
  {
    SelectInBaseMesh(p.scaledMesh.value, table);
  }

  lemma SelectedTables(p: Prediction)
    requires MeshComplete(p) && HasUsableMesh(p)
    ensures |SelectedScaledMesh(p, SILHOUETTE).value| == 36
    ensures |SelectedScaledMesh(p, LEFT_NOSE).value| == 16
    ensures |SelectedScaledMesh(p, RIGHT_NOSE).value| == 16
  {
    TablesInBaseMesh();
    SelectedTable(p, SILHOUETTE);
    SelectedTable(p, LEFT_NOSE);
    SelectedTable(p, RIGHT_NOSE);
  }

  /** The face box: the tight axis-aligned box around the silhouette points,
      or the selection's failure. */
  function AdjustedFaceBox(p: Prediction): (r: Result<Box>)
    requires MeshComplete(p)
    ensures r.Success? <==> HasUsableMesh(p)
    ensures r.Success? ==> TightBox(r.value, SelectedScaledMesh(p, SILHOUETTE).value)
  {
    match SelectedScaledMesh(p, SILHOUETTE)
    case EmptyDetectionFailure => EmptyDetectionFailure
    case Success(outline) =>
      SelectedTables(p);
      Success(BoundingBox(outline))
  }

  /** The face direction from the areas of the two nose polygons, or the
      selection's failure. */
  function FaceDirection(p: Prediction, factor: real): (r: Result<DirectionRecord>)
    requires MeshComplete(p)
    ensures r.Success? <==> HasUsableMesh(p)
    ensures r.Success? ==>
      && r.value.leftNoseArea == PolygonArea(SelectedScaledMesh(p, LEFT_NOSE).value)
      && r.value.rightNoseArea == PolygonArea(SelectedScaledMesh(p, RIGHT_NOSE).value)
      && Consistent(r.value, factor)
  {
    match (SelectedScaledMesh(p, LEFT_NOSE), SelectedScaledMesh(p, RIGHT_NOSE))
    case (Success(leftNose), Success(rightNose)) => Success(DirectionOf(leftNose, rightNose, factor))
    case _ => EmptyDetectionFailure
  }
}
