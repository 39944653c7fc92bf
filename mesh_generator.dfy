/**
 * `MeshGenerator.GenerateMesh`: a triangle fan around the origin. Vertex 0 is
 * the origin and vertex i + 1 is the i-th input point; triangle i joins the
 * origin, vertex i + 1 and the vertex after it, the last one wrapping round to
 * vertex 1. Both revisions carry the same copy of this class.
 */
module MeshGenerator {
  import opened Geometry
  import opened Wrappers

  /** The vertex and triangle-index arrays handed to the Unity `Mesh`. */
  datatype MeshData = MeshData(vertices: seq<Vec3>, triangles: seq<int>)

  /** The triangle of the fan loop's i-th pass: the origin, vertex i + 1 and vertex i + 2. */
  method WriteTriangle(triangles: array<int>, i: nat)
    requires 3 * i + 2 < triangles.Length
    modifies triangles
    ensures triangles[3 * i] == 0 && triangles[3 * i + 1] == i + 1 && triangles[3 * i + 2] == i + 2
    ensures forall m | 0 <= m < triangles.Length && (m < 3 * i || 3 * i + 2 < m) :: triangles[m] == old(triangles[m])
  {
    triangles[i * 3] := 0;
    for j := 0 to 2
      invariant triangles[3 * i] == 0
      invariant 1 <= j ==> triangles[3 * i + 1] == i + 1
      invariant 2 <= j ==> triangles[3 * i + 2] == i + 2
      invariant forall m | 0 <= m < triangles.Length && (m < 3 * i || 3 * i + 2 < m) :: triangles[m] == old(triangles[m])
    {
      triangles[i * 3 + j + 1] := i + j + 1;
    }
  }

  /** `null` for no points; otherwise the fan, built in two arrays. */
  method GenerateMesh(values: seq<Vec2>) returns (mesh: Option<MeshData>)
    ensures values == [] <==> mesh == None
    ensures mesh.Some? ==>
      var count := |values|;
      && |mesh.value.vertices| == count + 1
      && mesh.value.vertices[0] == Zero3
      && (forall i | 0 <= i < count :: mesh.value.vertices[i + 1] == ToVec3(values[i]))
      && |mesh.value.triangles| == 3 * count
      && (forall i | 0 <= i < count ::
            && mesh.value.triangles[3 * i] == 0
            && mesh.value.triangles[3 * i + 1] == i + 1
            && mesh.value.triangles[3 * i + 2] == Modulo(i + 1, count) + 1)
      && (forall i | 0 <= i < count ::
            && 0 <= mesh.value.triangles[3 * i] <= count
            && 0 <= mesh.value.triangles[3 * i + 1] <= count
            && 0 <= mesh.value.triangles[3 * i + 2] <= count)
  {
    var count := |values|;
    if count > 0 {
      var vertices := new Vec3[count + 1](_ => Zero3);
      var triangles := new int[3 * count];
      vertices[0] := Zero3;
      for i := 0 to count
        invariant vertices[0] == Zero3
        invariant forall k | 0 <= k < i :: vertices[k + 1] == ToVec3(values[k])
        invariant forall k | 0 <= k < i ::
                    triangles[3 * k] == 0 && triangles[3 * k + 1] == k + 1 && triangles[3 * k + 2] == k + 2
      {
        vertices[i + 1] := ToVec3(values[i]);
        WriteTriangle(triangles, i);
      }
      // Before this write the last index is count + 1, one past the vertex array.
      assert triangles[3 * (count - 1) + 2] == count + 1;
      triangles[3 * count - 1] := 1;
      forall i | 0 <= i < count
        ensures triangles[3 * i + 2] == Modulo(i + 1, count) + 1
      {
        if i == count - 1 {
          assert 3 * i + 2 == 3 * count - 1;
        }
      }
      mesh := Some(MeshData(vertices[..], triangles[..]));
    } else {
      mesh := None;
    }
  }
}
