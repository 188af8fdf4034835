/**
 * How the two versions of the helpers relate: on the same complete mesh they
 * compute the same selection, box and direction, with the 1.0.6 box taken
 * over `x` and `y` (the code as written reads `coord[0]` and `coord[1]`);
 * apart from that they differ in what an unusable detection gives.
 */
module Versions {
  import opened Geometry
  import V003 = HelpersV003
  import V106 = HelpersV106

  /** A complete mesh, reported as a MediaPipe `scaledMesh` to 0.0.3 and as
      `keypoints` to 1.0.6, gives the same results in both versions. */
  lemma AgreeOnDetectedFace(mesh: seq<Point>, meshPointIdx: seq<nat>, factor: real)
    requires |mesh| >= MAX_MESH_POINT
    ensures
      var old3, new6 := V003.Prediction(V003.MEDIAPIPE_KIND, Some(mesh)), V106.Prediction(Some(mesh));
      && V003.SelectedScaledMesh(old3, meshPointIdx).Success?
      && V106.SelectedScaledMesh(new6, meshPointIdx) == V003.SelectedScaledMesh(old3, meshPointIdx)
      && V106.AdjustedFaceBox(new6) == Success(Some(V003.AdjustedFaceBox(old3).value))
      && V106.FaceDirection(new6, factor) == V003.FaceDirection(old3, factor)
  {
  }

  /** An empty mesh fails the selection in both versions. */
  lemma AgreeOnEmptyMesh(kind: string, meshPointIdx: seq<nat>)
    ensures V003.SelectedScaledMesh(V003.Prediction(kind, Some([])), meshPointIdx) == EmptyDetectionFailure
    ensures V106.SelectedScaledMesh(V106.Prediction(Some([])), meshPointIdx) == EmptyDetectionFailure
  {
  }
}
