/** Display-extent bookkeeping for the three orthogonal slice planes.

    A display extent is the 6-tuple (x0, x1, y0, y1, z0, z1) of voxel indices
    that an image actor shows. A slice plane pins one axis to a single index and
    spans the whole volume along the other two. This module states the extents
    the planes start with, the update a slider interaction performs, and what any
    sequence of interactions leaves behind.
 */
module Extents {

  /** A voxel axis of the volume: 0 = x, 1 = y, 2 = z. */
  type Axis = a: int | 0 <= a < 3

  /** Index of a plane in the list [sagittal, axial, coronal]. */
  type PlaneIndex = i: int | 0 <= i < 3

  /** Three integers, one per voxel axis (dimensions, or pinned indices). */
  datatype Triple = Triple(x: int, y: int, z: int) {
    function Along(a: Axis): int {
      if a == 0 then x else if a == 1 then y else z
    }
  }

  /** A display extent (x0, x1, y0, y1, z0, z1). */
  type Extent = e: seq<int> | |e| == 6 witness [0, 0, 0, 0, 0, 0]

  /** Lower bound of an extent along an axis. */
  function Lo(e: Extent, a: Axis): int { e[2 * a] }

  /** Upper bound of an extent along an axis. */
  function Hi(e: Extent, a: Axis): int { e[2 * a + 1] }

  /** The canonical extent of a slice: axis `a` pinned to `p`, every other axis
      spanning 0 .. dims-1. This is the shape every plane has to keep. */
  function Slice(dims: Triple, a: Axis, p: int): (e: Extent)
    ensures Lo(e, a) == p && Hi(e, a) == p
    ensures forall b: Axis :: b != a ==> Lo(e, b) == 0 && Hi(e, b) == dims.Along(b) - 1
  {
    seq(6, k requires 0 <= k < 6 =>
      if k / 2 == a then p else if k % 2 == 0 then 0 else dims.Along(k / 2) - 1)
  }

  /** Two extents are equal when they agree on every bound. */
  lemma ExtentsEqual(e: Extent, f: Extent)
    requires forall a: Axis :: Lo(e, a) == Lo(f, a) && Hi(e, a) == Hi(f, a)
    ensures e == f
  {
    assert Lo(e, 0) == Lo(f, 0) && Hi(e, 0) == Hi(f, 0);
    assert Lo(e, 1) == Lo(f, 1) && Hi(e, 1) == Hi(f, 1);
    assert Lo(e, 2) == Lo(f, 2) && Hi(e, 2) == Hi(f, 2);
  }

  // ---------------------------------------------------------------------------
  // CreatePlanes: the three initial extents, written as the source lists them.
  // `c` holds the pinned start index of each axis.

  function SagittalExtent(dims: Triple, c: Triple): Extent {
    [c.x, c.x, 0, dims.y - 1, 0, dims.z - 1]
  }

  function AxialExtent(dims: Triple, c: Triple): Extent {
    [0, dims.x - 1, 0, dims.y - 1, c.z, c.z]
  }

  function CoronalExtent(dims: Triple, c: Triple): Extent {
    [0, dims.x - 1, c.y, c.y, 0, dims.z - 1]
  }

  /** The planes in the order CreatePlanes returns them. */
  function InitialExtents(dims: Triple, c: Triple): (planes: seq<Extent>)
    ensures |planes| == 3
  {
    [SagittalExtent(dims, c), AxialExtent(dims, c), CoronalExtent(dims, c)]
  }

  // ---------------------------------------------------------------------------
  // The plane-to-axis map of AddSliders: sagittal -> x, axial -> z, coronal -> y.

  const SliderAxes: seq<Axis> := [0, 2, 1]

  function AxisOf(i: PlaneIndex): Axis { SliderAxes[i] }

  /** The inverse map: the plane that slices along a given axis. */
  function PlaneOf(a: Axis): PlaneIndex { if a == 0 then 0 else if a == 1 then 2 else 1 }

  /** The slider axis map is a permutation of the three axes. */
  lemma SliderAxesPermutation()
    ensures forall i: PlaneIndex :: PlaneOf(AxisOf(i)) == i
    ensures forall a: Axis :: AxisOf(PlaneOf(a)) == a
    ensures forall i: PlaneIndex, j: PlaneIndex :: AxisOf(i) == AxisOf(j) ==> i == j
  {
  }

  /** Each plane CreatePlanes builds is a slice pinned on the very axis its
      slider is bound to, at that axis's start index. */
  lemma {:induction false} InitialExtentsPinnedOnSliderAxis(dims: Triple, c: Triple, i: PlaneIndex)
    ensures InitialExtents(dims, c)[i] == Slice(dims, AxisOf(i), c.Along(AxisOf(i)))
  {
    var e, s := InitialExtents(dims, c)[i], Slice(dims, AxisOf(i), c.Along(AxisOf(i)));
    forall a: Axis ensures Lo(e, a) == Lo(s, a) && Hi(e, a) == Hi(s, a) {
      if a == AxisOf(i) {
      } else {
        assert Lo(s, a) == 0 && Hi(s, a) == dims.Along(a) - 1;
      }
    }
    ExtentsEqual(e, s);
  }

  // ---------------------------------------------------------------------------
  // Sliders.

  /** The range [minimum, maximum] of the slider bound to plane `i`. */
  datatype Range = Range(minimum: int, maximum: int) {
    predicate Contains(p: int) { minimum <= p <= maximum }
  }

  function SliderRange(dims: Triple, i: PlaneIndex): (r: Range)
    ensures r.minimum == 0 && r.maximum == dims.Along(AxisOf(i)) - 1
  {
    Range(0, dims.Along(AxisOf(i)) - 1)
  }

  /** The value a slider starts at: the lower bound of its plane's extent on the
      slider's axis. */
  function SliderValue(e: Extent, i: PlaneIndex): int { Lo(e, AxisOf(i)) }

  /** Right after CreatePlanes, every slider starts at its plane's pinned index,
      and that value is inside the slider's range when the start index lies inside
      the volume. */
  lemma {:induction false} SliderStartsAtPinnedIndex(dims: Triple, c: Triple, i: PlaneIndex)
    ensures SliderValue(InitialExtents(dims, c)[i], i) == c.Along(AxisOf(i))
    ensures SliderRange(dims, i).Contains(SliderValue(InitialExtents(dims, c)[i], i))
        <==> 0 <= c.Along(AxisOf(i)) < dims.Along(AxisOf(i))
  {
    InitialExtentsPinnedOnSliderAxis(dims, c, i);
  }

  /** The extent a SliderCallback writes back: both bounds of axis `a` set to
      `p`, the other four entries copied unchanged. No clamping happens here. */
  function WithPosition(e: Extent, a: Axis, p: int): (r: Extent)
    ensures Lo(r, a) == p && Hi(r, a) == p
    ensures forall b: Axis :: b != a ==> Lo(r, b) == Lo(e, b) && Hi(r, b) == Hi(e, b)
  {
    e[2 * a := p][2 * a + 1 := p]
  }

  /** Applying the callback twice with the same position is the same as once. */
  lemma {:induction false} WithPositionIdempotent(e: Extent, a: Axis, p: int)
    ensures WithPosition(WithPosition(e, a, p), a, p) == WithPosition(e, a, p)
  {
    var once := WithPosition(e, a, p);
    var twice := WithPosition(once, a, p);
    forall b: Axis ensures Lo(twice, b) == Lo(once, b) && Hi(twice, b) == Hi(once, b) {
    }
    ExtentsEqual(twice, once);
  }

  /** A callback on the pinned axis of a slice yields the slice moved to the new
      position: the pinned pair stays equal and the other axes keep full range. */
  lemma {:induction false} WithPositionKeepsSlice(dims: Triple, a: Axis, q: int, p: int)
    ensures WithPosition(Slice(dims, a, q), a, p) == Slice(dims, a, p)
  {
    var moved, target := WithPosition(Slice(dims, a, q), a, p), Slice(dims, a, p);
    forall b: Axis ensures Lo(moved, b) == Lo(target, b) && Hi(moved, b) == Hi(target, b) {
      if b != a {
        assert Lo(Slice(dims, a, q), b) == 0;
      }
    }
    ExtentsEqual(moved, target);
  }

  // ---------------------------------------------------------------------------
  // Any sequence of slider interactions over the three planes.

  /** One interaction: slider `slider` reports integer position `position`. */
  datatype Interaction = Interaction(slider: PlaneIndex, position: int)

  /** The planes after slider `ev.slider` fires once. */
  function Interact(planes: seq<Extent>, ev: Interaction): (r: seq<Extent>)
    requires |planes| == 3
    ensures |r| == 3
    ensures r[ev.slider] == WithPosition(planes[ev.slider], AxisOf(ev.slider), ev.position)
    ensures forall j: PlaneIndex :: j != ev.slider ==> r[j] == planes[j]
  {
    planes[ev.slider := WithPosition(planes[ev.slider], AxisOf(ev.slider), ev.position)]
  }

  /** The planes after the interactions `evs`, in arrival order. */
  function Replay(planes: seq<Extent>, evs: seq<Interaction>): (r: seq<Extent>)
    requires |planes| == 3
    ensures |r| == 3
  {
    if evs == [] then planes else Interact(Replay(planes, evs[..|evs| - 1]), evs[|evs| - 1])
  }

  /** The last position slider `i` reported in `evs`, or `start` if it never fired. */
  function LastPosition(evs: seq<Interaction>, i: PlaneIndex, start: int): int {
    if evs == [] then start
    else if evs[|evs| - 1].slider == i then evs[|evs| - 1].position
    else LastPosition(evs[..|evs| - 1], i, start)
  }

  /** The key invariant: after any sequence of callbacks, each plane is still a
      slice pinned on its own slider's axis, with the full range on the other two
      axes, at the last position its slider reported. */
  lemma {:induction false} ReplayKeepsSlices(dims: Triple, c: Triple, evs: seq<Interaction>)
    ensures forall i: PlaneIndex ::
              Replay(InitialExtents(dims, c), evs)[i] == Slice(dims, AxisOf(i), LastPosition(evs, i, c.Along(AxisOf(i))))
  {
    if evs == [] {
      forall i: PlaneIndex ensures InitialExtents(dims, c)[i] == Slice(dims, AxisOf(i), c.Along(AxisOf(i))) {
        InitialExtentsPinnedOnSliderAxis(dims, c, i);
      }
    } else {
      var prefix, ev := evs[..|evs| - 1], evs[|evs| - 1];
      ReplayKeepsSlices(dims, c, prefix);
      var before := Replay(InitialExtents(dims, c), prefix);
      forall i: PlaneIndex ensures Replay(InitialExtents(dims, c), evs)[i]
          == Slice(dims, AxisOf(i), LastPosition(evs, i, c.Along(AxisOf(i))))
      {
        if i == ev.slider {
          WithPositionKeepsSlice(dims, AxisOf(i), LastPosition(prefix, i, c.Along(AxisOf(i))), ev.position);
        }
      }
    }
  }

  /** Every interaction reports a position inside its slider's range. */
  predicate InRange(dims: Triple, evs: seq<Interaction>) {
    forall k :: 0 <= k < |evs| ==> SliderRange(dims, evs[k].slider).Contains(evs[k].position)
  }

  /** The last position of a slider stays in its range when the start did and
      every interaction did. */
  lemma {:induction false} LastPositionInRange(dims: Triple, evs: seq<Interaction>, i: PlaneIndex, start: int)
    requires InRange(dims, evs)
    requires SliderRange(dims, i).Contains(start)
    ensures SliderRange(dims, i).Contains(LastPosition(evs, i, start))
  {
    if evs != [] && evs[|evs| - 1].slider != i {
      var prefix := evs[..|evs| - 1];
      assert forall k :: 0 <= k < |prefix| ==> prefix[k] == evs[k];
      LastPositionInRange(dims, prefix, i, start);
    } else if evs != [] {
      assert SliderRange(dims, evs[|evs| - 1].slider).Contains(evs[|evs| - 1].position);
    }
  }

  /** With the start indices inside the volume, the range each slider offers is
      the only thing that keeps the planes inside the volume: after any sequence
      of in-range interactions every pinned index is a valid voxel index. */
  lemma {:induction false} ReplayStaysInVolume(dims: Triple, c: Triple, evs: seq<Interaction>, i: PlaneIndex)
    requires forall a: Axis :: 0 <= c.Along(a) < dims.Along(a)
    requires InRange(dims, evs)
    ensures 0 <= Lo(Replay(InitialExtents(dims, c), evs)[i], AxisOf(i)) < dims.Along(AxisOf(i))
  {
    ReplayKeepsSlices(dims, c, evs);
    LastPositionInRange(dims, evs, i, c.Along(AxisOf(i)));
  }
}
