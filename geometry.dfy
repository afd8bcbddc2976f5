/** The start index CreatePlanes gives each plane: the voxel at the centre of
    the volume along the plane's axis. The volume's origin and spacing are
    floating-point numbers in the program; they are modelled here as exact reals.
 */
module Geometry {
  import opened Extents

  /** Python's `int()` on a float: truncation toward zero. */
  function Trunc(x: real): (n: int)
    ensures 0.0 <= x ==> n as real <= x < n as real + 1.0
    ensures x < 0.0 ==> n as real - 1.0 < x <= n as real
  {
    if 0.0 <= x then x.Floor else -((-x).Floor)
  }

  /** Physical coordinate of the volume's centre along one axis. */
  function Center(origin: real, spacing: real, dim: int): real {
    origin + (dim - 1) as real * spacing / 2.0
  }

  /** The start index as written: the physical centre divided by the spacing,
      truncated. The origin is not subtracted first. */
  function StartIndexAsWritten(origin: real, spacing: real, dim: int): int
    requires spacing > 0.0
  {
    Trunc(Center(origin, spacing, dim) / spacing)
  }

  /** A volume of 100 voxels of size 1 whose origin lies at -100 gets start index
      -50: a slice outside the volume, so the plane shows nothing. */
  lemma StartIndexAsWrittenLeavesVolume()
    ensures var k := StartIndexAsWritten(-100.0, 1.0, 100); k == -50 && !(0 <= k < 100)
  {
    assert Center(-100.0, 1.0, 100) == -50.5;
  }

  /** Half of `n` as a real, for the proofs below. */
  lemma HalfSpacing(n: int, spacing: real)
    requires spacing > 0.0
    ensures n as real * spacing / 2.0 / spacing == n as real / 2.0
  {
    calc {
      n as real * spacing / 2.0 / spacing;
      == (n as real / 2.0) * spacing / spacing;
      == n as real / 2.0;
    }
  }

  /** The evidently intended start index: the centre measured from the origin,
      in voxels, truncated. It is the middle voxel (dim-1)/2 whatever the origin
      and spacing, and so always inside the volume. */
  function StartIndex(origin: real, spacing: real, dim: int): (k: int)
    requires spacing > 0.0 && dim >= 1
    ensures k == (dim - 1) / 2
    ensures 0 <= k < dim
  {
    HalfSpacing(dim - 1, spacing);
    assert (Center(origin, spacing, dim) - origin) / spacing == (dim - 1) as real / 2.0;
    Trunc((Center(origin, spacing, dim) - origin) / spacing)
  }

  /** A real triple (origin or spacing of the volume). */
  datatype Vec3 = Vec3(x: real, y: real, z: real) {
    function Along(a: Axis): real {
      if a == 0 then x else if a == 1 then y else z
    }
  }

  /** A well-formed volume geometry: at least one voxel and a positive spacing
      along every axis. */
  predicate ValidGeometry(dims: Triple, spacing: Vec3) {
    forall a: Axis :: dims.Along(a) >= 1 && spacing.Along(a) > 0.0
  }

  /** The start indices of the three axes. */
  function StartIndices(dims: Triple, origin: Vec3, spacing: Vec3): (c: Triple)
    requires ValidGeometry(dims, spacing)
    ensures forall a: Axis :: 0 <= c.Along(a) < dims.Along(a)
  {
    assert dims.Along(0) >= 1 && spacing.Along(0) > 0.0;
    assert dims.Along(1) >= 1 && spacing.Along(1) > 0.0;
    assert dims.Along(2) >= 1 && spacing.Along(2) > 0.0;
    var c := Triple(StartIndex(origin.x, spacing.x, dims.x),
                    StartIndex(origin.y, spacing.y, dims.y),
                    StartIndex(origin.z, spacing.z, dims.z));
    assert c.Along(0) == c.x && c.Along(1) == c.y && c.Along(2) == c.z;
    c
  }

  /** With corrected start indices, every plane CreatePlanes builds, and every
      plane after any sequence of in-range slider interactions, cuts through the
      volume. */
  lemma {:induction false} PlanesStayInVolume(dims: Triple, origin: Vec3, spacing: Vec3, evs: seq<Interaction>, i: PlaneIndex)
    requires ValidGeometry(dims, spacing)
    requires InRange(dims, evs)
    ensures var c := StartIndices(dims, origin, spacing);
            0 <= Lo(Replay(InitialExtents(dims, c), evs)[i], AxisOf(i)) < dims.Along(AxisOf(i))
  {
    ReplayStaysInVolume(dims, StartIndices(dims, origin, spacing), evs, i);
  }
}
