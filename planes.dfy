/** The slice-plane objects: image actors whose display extent is changed in
    place, the slider callbacks bound to them, and the two builders CreatePlanes
    and AddSliders.
 */
module Planes {
  import opened Extents

  /** An image actor showing one slice of the volume. Its display extent is a
      six-entry buffer that SetDisplayExtent overwrites in place; `inputDims` are
      the dimensions of the image the actor's mapper reads. */
  class ImageActor {
    var displayExtent: array<int>
    const inputDims: Triple

    ghost predicate Valid()
      reads this
    {
      displayExtent.Length == 6
    }

    /** GetDisplayExtent. */
    function DisplayExtent(): (e: Extent)
      reads this, displayExtent
      requires Valid()
    {
      displayExtent[..]
    }

    constructor (dims: Triple, e: Extent)
      ensures Valid() && fresh(displayExtent)
      ensures inputDims == dims && DisplayExtent() == e
    {
      inputDims := dims;
      displayExtent := new int[6](k requires 0 <= k < 6 => e[k]);
    }

    /** SetDisplayExtent: copies the six bounds into the actor's extent. */
    method SetDisplayExtent(e: Extent)
      requires Valid()
      modifies displayExtent
      ensures Valid() && DisplayExtent() == e
    {
      for k := 0 to 6
        invariant displayExtent[..k] == e[..k]
      {
        displayExtent[k] := e[k];
      }
    }
  }

  /** The callback object a slider widget calls on each interaction. */
  class SliderCallback {
    const plane: ImageActor
    const axis: Axis

    constructor (plane: ImageActor, axis: Axis)
      ensures this.plane == plane && this.axis == axis
    {
      this.plane := plane;
      this.axis := axis;
    }

    /** __call__: copy the plane's extent into a list, overwrite the two bounds
        of the bound axis with the reported position, and write the list back.
        The position is not clamped. */
    method Call(position: int)
      requires plane.Valid()
      modifies plane.displayExtent
      ensures plane.Valid()
      ensures plane.DisplayExtent() == WithPosition(old(plane.DisplayExtent()), axis, position)
    {
      var current := plane.DisplayExtent();
      var extent := new int[6](k requires 0 <= k < 6 => current[k]);
      extent[axis * 2] := position;
      extent[axis * 2 + 1] := position;
      plane.SetDisplayExtent(extent[..]);
    }
  }

  /** A slider widget as far as the planes see it: its range, its initial value
      and the callback it fires. */
  datatype Slider = Slider(minimum: int, maximum: int, value: int, callback: SliderCallback)

  /** Slider `s` is bound to `plane` along `axis`, ranges over that axis of the
      plane's input and starts at the plane's current lower bound on that axis. */
  ghost predicate BoundTo(s: Slider, plane: ImageActor, axis: Axis)
    reads plane, plane.displayExtent
    requires plane.Valid()
  {
    && s.callback.plane == plane && s.callback.axis == axis
    && s.minimum == 0 && s.maximum == plane.inputDims.Along(axis) - 1
    && s.value == Lo(plane.DisplayExtent(), axis)
  }

  /** CreatePlanes: the sagittal, axial and coronal actors over a volume of
      dimensions `dims`, each pinned at the start index `c` gives its axis. */
  method CreatePlanes(dims: Triple, c: Triple) returns (planes: seq<ImageActor>)
    ensures |planes| == 3
    ensures forall i: PlaneIndex :: planes[i].Valid() && fresh(planes[i]) && fresh(planes[i].displayExtent)
    ensures forall i: PlaneIndex :: planes[i].inputDims == dims && planes[i].DisplayExtent() == InitialExtents(dims, c)[i]
    ensures forall i: PlaneIndex, j: PlaneIndex :: i != j ==> planes[i].displayExtent != planes[j].displayExtent
  {
    var sagittal := new ImageActor(dims, SagittalExtent(dims, c));
    var axial := new ImageActor(dims, AxialExtent(dims, c));
    var coronal := new ImageActor(dims, CoronalExtent(dims, c));
    planes := [sagittal, axial, coronal];
  }

  /** AddSliders: one slider per plane, zipped with the axis map [0, 2, 1]. */
  method AddSliders(planes: seq<ImageActor>) returns (sliders: seq<Slider>)
    requires forall k :: 0 <= k < |planes| ==> planes[k].Valid()
    ensures |sliders| == if |planes| < 3 then |planes| else 3
    ensures forall i: PlaneIndex :: i < |sliders| ==> BoundTo(sliders[i], planes[i], AxisOf(i))
    ensures forall i: PlaneIndex :: i < |sliders| ==>
              Range(sliders[i].minimum, sliders[i].maximum) == SliderRange(planes[i].inputDims, i)
  {
    sliders := [];
    var i := 0;
    while i < |planes| && i < |SliderAxes|
      invariant 0 <= i <= 3 && i <= |planes|
      invariant |sliders| == i
      invariant forall j: PlaneIndex :: j < i ==> BoundTo(sliders[j], planes[j], AxisOf(j))
    {
      var plane, axis := planes[i], SliderAxes[i];
      var maximum := plane.inputDims.Along(axis) - 1;
      var value := plane.displayExtent[axis * 2];
      var callback := new SliderCallback(plane, axis);
      sliders := sliders + [Slider(0, maximum, value, callback)];
      i := i + 1;
    }
  }

  /** The display extents of a list of actors, in list order. */
  function ExtentsOf(planes: seq<ImageActor>): (es: seq<Extent>)
    reads planes, set k | 0 <= k < |planes| :: planes[k].displayExtent
    requires forall k :: 0 <= k < |planes| ==> planes[k].Valid()
    ensures |es| == |planes|
    ensures forall k :: 0 <= k < |planes| ==> es[k] == planes[k].DisplayExtent()
  {
    seq(|planes|, k reads planes, set k | 0 <= k < |planes| :: planes[k].displayExtent
                    requires 0 <= k < |planes| && planes[k].Valid() => planes[k].DisplayExtent())
  }

  /** The three actors own three distinct extent buffers. */
  ghost predicate SeparateExtents(planes: seq<ImageActor>)
    reads planes
  {
    forall k, l :: 0 <= k < l < |planes| ==> planes[k].displayExtent != planes[l].displayExtent
  }

  /** Every interaction reports a position inside the range of the slider it
      names. */
  predicate ReportsInRange(sliders: seq<Slider>, evs: seq<Interaction>)
    requires |sliders| == 3
  {
    forall k :: 0 <= k < |evs| ==>
      sliders[evs[k].slider].minimum <= evs[k].position <= sliders[evs[k].slider].maximum
  }

  /** The interactor's event loop: every interaction fires the callback of the
      slider it names, strictly in arrival order. */
  method Dispatch(planes: seq<ImageActor>, sliders: seq<Slider>, evs: seq<Interaction>)
    requires |planes| == 3 && |sliders| == 3
    requires forall i: PlaneIndex :: planes[i].Valid()
    requires forall i: PlaneIndex :: sliders[i].callback.plane == planes[i] && sliders[i].callback.axis == AxisOf(i)
    requires SeparateExtents(planes)
    modifies set i: PlaneIndex :: planes[i].displayExtent
    ensures forall i: PlaneIndex :: planes[i].Valid()
    ensures ExtentsOf(planes) == Replay(old(ExtentsOf(planes)), evs)
  {
    ghost var start := ExtentsOf(planes);
    for k := 0 to |evs|
      invariant forall i: PlaneIndex :: planes[i].Valid()
      invariant ExtentsOf(planes) == Replay(start, evs[..k])
    {
      var ev := evs[k];
      ghost var before := ExtentsOf(planes);
      sliders[ev.slider].callback.Call(ev.position);
      assert evs[..k + 1][..k] == evs[..k];
      assert ExtentsOf(planes) == Interact(before, ev);
    }
    assert evs[..|evs|] == evs;
  }

  /** The whole interactive session: build the planes, bind the sliders, then
      deliver the user's interactions. Each plane ends as a slice pinned on its own
      slider's axis at the position that slider last reported. */
  method InteractiveSession(dims: Triple, c: Triple, evs: seq<Interaction>) returns (planes: seq<ImageActor>, sliders: seq<Slider>)
    ensures |planes| == 3 && |sliders| == 3
    ensures forall i: PlaneIndex :: Range(sliders[i].minimum, sliders[i].maximum) == SliderRange(dims, i)
    ensures InRange(dims, evs) <==> ReportsInRange(sliders, evs)
    ensures forall i: PlaneIndex :: planes[i].Valid()
    ensures forall i: PlaneIndex ::
              planes[i].DisplayExtent() == Slice(dims, AxisOf(i), LastPosition(evs, i, c.Along(AxisOf(i))))
  {
    planes := CreatePlanes(dims, c);
    sliders := AddSliders(planes);
    assert ExtentsOf(planes) == InitialExtents(dims, c);
    Dispatch(planes, sliders, evs);
    ReplayKeepsSlices(dims, c, evs);
  }
}
