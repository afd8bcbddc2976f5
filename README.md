# Inner-ear slice navigation, modelled in Dafny

The program shows a CT volume of the inner ear (an NRRD image) with the
segmented surface meshes of its structures (VTK files). Three image actors
slice the volume: sagittal, axial and coronal. One 3D slider per plane moves
its slice through the volume.

This project models the part of `InnerEarVisualization.py` that has exact
rules:

- the display extents `CreatePlanes` gives the three planes;
- how `AddSliders` binds each plane to a slider: the axis map `[0, 2, 1]`, the
  slider's range and its initial value;
- the in-place extent update that `SliderCallback.__call__` performs on every
  interaction;
- the naming, colour and opacity rules of `ColorSpecificParts`.

The main result is `Extents.ReplayKeepsSlices`. The callback writes the same
axis that `CreatePlanes` pinned. So after any sequence of interactions, each
plane is still pinned on its slider's axis, at the last position that slider
reported, and spans the full volume on the other two axes.
`Planes.InteractiveSession` gets the same result from the objects themselves:
actors whose extent buffers are overwritten in place, and callbacks fired in
arrival order.

Modules (one file each):

- `Extents` (`extents.dfy`): extents as six-integer sequences, the canonical
  slice shape, the three initial extents, the axis map, slider ranges, the
  callback's update as a function, and replay of any sequence of interactions.
- `Planes` (`planes.dfy`): the classes `ImageActor` and `SliderCallback`, with
  the extent held in a six-entry `array<int>`. Also the methods `CreatePlanes`
  and `AddSliders`, and the event loop `Dispatch`.
- `PyStrings` (`pystrings.dfy`): Python's `str.split(sep, maxsplit)`,
  `str.replace` and `str.endswith`, with the semantics the naming rule relies on.
- `MeshParts` (`meshparts.dfy`): `ColorSpecificParts`, which turns the directory
  listing into styled mesh actors.
- `Geometry` (`geometry.dfy`): the start index of each plane, computed from the
  volume's origin, spacing and dimensions (see Findings).

Some facts about the code that the model keeps:

- The callback never clamps a slider position. Only the slider's range
  `[0, dim-1]` keeps positions inside the volume.
- The callback truncates positions to integers; it does not round them.
- The code raises no errors of its own.
- Planes are always created and given sliders in the order sagittal, axial,
  coronal.

`name.split('_', 2)[-1]` keeps the text after the second underscore. If the
name has only one underscore, it keeps the text after that one. If it has
none, it keeps the whole name. `MeshParts.StructurePartIsTail` states all three
cases.

## Model

| member | source | states |
|---|---|---|
| `Extents.Slice` | InnerEarVisualization.py:162-193 | the canonical extent of a plane: both bounds of the pinned axis equal the position, each other axis spans 0 to dim-1 |
| `Extents.InitialExtentsPinnedOnSliderAxis` | InnerEarVisualization.py:162-193 | the extent of plane i is the slice pinned on axis [0,2,1][i] at that axis's start index: sagittal (c0,c0,0,d1-1,0,d2-1), axial (0,d0-1,0,d1-1,c2,c2), coronal (0,d0-1,c1,c1,0,d2-1) |
| `Extents.SliderAxesPermutation` | InnerEarVisualization.py:217 | the plane-to-axis map [0,2,1] is a bijection between planes and axes |
| `Extents.SliderStartsAtPinnedIndex` | InnerEarVisualization.py:221 | a slider starts at extent[2*axis] of its plane, which is the plane's start index; that value lies in the slider's range exactly when the start index lies inside the volume |
| `Extents.WithPosition` | InnerEarVisualization.py:12-15 | after the callback, extent[2a] and extent[2a+1] equal the position and the other four entries are unchanged; there is no clamping |
| `Extents.WithPositionIdempotent` | InnerEarVisualization.py:11-15 | firing the callback twice with the same position leaves the same extent as firing it once |
| `Extents.WithPositionKeepsSlice` | InnerEarVisualization.py:13-14 | a callback on a plane's own pinned axis moves the slice and keeps its shape: the pinned pair stays equal, the other axes keep the full range |
| `Extents.Interact` | InnerEarVisualization.py:10-15 | one interaction changes only the plane its slider is bound to, and changes it by the callback's update on that slider's axis |
| `Extents.ReplayKeepsSlices` | InnerEarVisualization.py:217 | after any sequence of interactions, plane i is the slice pinned on axis [0,2,1][i], at the last position its slider reported (or its start index), with the full range on the other two axes |
| `Extents.LastPositionInRange` | InnerEarVisualization.py:219-220 | if the start value and every reported position lie in the slider's range, the last position does too |
| `Extents.ReplayStaysInVolume` | InnerEarVisualization.py:219-220 | with start indices inside the volume and in-range interactions, every pinned index stays a valid voxel index |
| `Planes.ImageActor.constructor` | InnerEarVisualization.py:160-169 | a new image actor holds the given input dimensions and display extent, in a fresh six-entry buffer |
| `Planes.ImageActor.SetDisplayExtent` | InnerEarVisualization.py:15 | the actor's extent buffer holds exactly the six given bounds afterwards |
| `Planes.SliderCallback.constructor` | InnerEarVisualization.py:6-8 | the callback remembers its plane and axis |
| `Planes.SliderCallback.Call` | InnerEarVisualization.py:10-15 | the plane's extent buffer is overwritten in place with the callback's update (`Extents.WithPosition`) of its old value on the callback's axis |
| `Planes.CreatePlanes` | InnerEarVisualization.py:121-200 | three fresh actors with separate extent buffers, over the volume's dimensions, holding the sagittal, axial and coronal initial extents in that order |
| `Planes.AddSliders` | InnerEarVisualization.py:202-237 | one slider per plane, zipped with [0,2,1] (so at most three); slider i's callback is bound to plane i and axis [0,2,1][i]; its range is 0 to dim[axis]-1 of that plane's input, which is `Extents.SliderRange` of the plane's dimensions; its value is the plane's extent[2*axis] |
| `Planes.Dispatch` | InnerEarVisualization.py:233 | firing the bound callbacks for a sequence of interactions, in arrival order, leaves the actors' extents equal to the replay of those interactions |
| `Planes.InteractiveSession` | InnerEarVisualization.py:277-284 | after CreatePlanes, AddSliders and any sequence of interactions, each actor's extent is the slice pinned on its slider's axis at the last position that slider reported; the sliders built cover `Extents.SliderRange` of the volume, so the interactions stay within the sliders' ranges exactly when `Extents.InRange` holds |
| `PyStrings.FindFrom` | InnerEarVisualization.py:90 | the scan split performs from position j returns an index between j and the length, and an index before the length holds the separator |
| `PyStrings.FindFromNoEarlier` | InnerEarVisualization.py:90 | no separator lies between j and the index the scan returns, so split cuts at the first separator |
| `PyStrings.FindFromAt` | InnerEarVisualization.py:90 | when position k holds the separator and none lies between j and k, the scan from j returns k |
| `PyStrings.SplitShape` | InnerEarVisualization.py:90 | split(sep, n) returns 1 + min(n, #sep) parts, and no part except the last contains the separator |
| `PyStrings.JoinSplit` | InnerEarVisualization.py:90 | joining the parts of split(sep, n) with sep gives back the original string |
| `PyStrings.SplitLastIsTail` | InnerEarVisualization.py:90 | the last part of a split is the suffix that starts at the cut position |
| `PyStrings.SplitCutCount` | InnerEarVisualization.py:90 | the text before the last part contains exactly min(n, #sep) separators |
| `PyStrings.SplitCutAfterSeparator` | InnerEarVisualization.py:90 | if the text before the last part is non-empty, it ends with the separator |
| `PyStrings.ReplaceChar` | InnerEarVisualization.py:91 | replace(c, d) with single characters keeps the length and maps each position: c becomes d, every other character stays |
| `PyStrings.ReplaceCharRemovesAll` | InnerEarVisualization.py:91 | after replace('_', ' ') no underscore is left |
| `PyStrings.RemoveTrailing` | InnerEarVisualization.py:90 | replace('.vtk', '') on stem + '.vtk' gives back the stem when the stem contains no '.' |
| `MeshParts.StructurePartIsTail` | InnerEarVisualization.py:90 | name.split('_', 2)[-1] is a suffix of the name; the text before it holds min(2, #underscores) underscores and, if non-empty, ends with one: after the second underscore, after the only one, or the whole name |
| `MeshParts.StructureName` | InnerEarVisualization.py:90-91 | a structure name never contains an underscore |
| `MeshParts.StructureNameOfModelFile` | InnerEarVisualization.py:90-91 | for `<prefix>_<n>_<words>.vtk` with no dot in the words, the structure name is the words with every underscore turned into a space |
| `MeshParts.TemporalBoneName` | InnerEarVisualization.py:90-91 | `Model_3_Temporal_Bone.vtk` is named `Temporal Bone` |
| `MeshParts.ColorIndex` | InnerEarVisualization.py:104 | the colour index i % 8 is always a valid index into the 8-entry colour table, and equals i for the first eight entries |
| `MeshParts.ColorIndexCycles` | InnerEarVisualization.py:104 | entries eight positions apart get the same colour |
| `MeshParts.OpacityFor` | InnerEarVisualization.py:112-113 | opacity is set to 0.1 exactly for the three listed file names and left unchanged for every other name |
| `MeshParts.PartsLength` | InnerEarVisualization.py:86-87 | exactly one actor is made per `.vtk` entry of the listing |
| `MeshParts.PartsAt` | InnerEarVisualization.py:86-117 | the `.vtk` entry at listing position j becomes the actor placed after those of the earlier `.vtk` entries, with colour j % 8; non-`.vtk` entries still advance j |
| `MeshParts.PartsWellFormed` | InnerEarVisualization.py:86-117 | every actor comes from a `.vtk` entry, carries that file's structure name and a colour from the table, and has opacity 0.1 exactly when its file is one of the three listed names (otherwise unchanged) |
| `MeshParts.ColorSpecificParts` | InnerEarVisualization.py:60-119 | the loop returns exactly the actors `MeshParts.Parts` specifies for the listing, in listing order |
| `Geometry.Trunc` | InnerEarVisualization.py:163 | Python's `int()` on a float truncates toward zero: the result is within one unit of the value, on the side of zero |
| `Geometry.StartIndexAsWrittenLeavesVolume` | InnerEarVisualization.py:131-134 | as written, a volume of 100 unit voxels with origin -100 gets start index -50, outside the volume |
| `Geometry.StartIndex` | InnerEarVisualization.py:163 | corrected: the centre measured from the origin, in voxels and truncated, is (dim-1)/2, always inside the volume |
| `Geometry.StartIndices` | InnerEarVisualization.py:131-134 | for a volume with at least one voxel and positive spacing on every axis, the corrected start index of every axis is a valid voxel index |
| `Geometry.PlanesStayInVolume` | InnerEarVisualization.py:162-193 | with corrected start indices and in-range interactions, every plane keeps cutting through the volume |

## Left out

- VTK objects and calls are foreign library behaviour: readers, mappers, the
  outline filter, the renderer, the window and the interactor's camera style.
- The `vtkImageFlip` chains (lines 137-157) are left out too. A flip keeps the
  image's dimensions. So an actor's input dimensions are modelled as the
  volume's dimensions.
- Colour window and level (lines 196-198) are display settings of the foreign
  actor. Slider knob colours and the slider's 3D geometry (lines 209-227) are
  also left out.
- `Planes.SliderCallback.Call`: the slider's floating-point value and its
  truncation by `int()` (line 11) are not modelled. The position arrives as an
  integer argument.
- How the slider widget keeps its value inside `[minimum, maximum]` is
  foreign-widget behaviour. It is modelled only as the premise that reported
  positions are in range (`Extents.InRange`, which `Planes.InteractiveSession`
  shows equal to the sliders' own ranges). Any clamping the widget applies to
  its initial value (line 221) is not modelled either: `Planes.BoundTo` takes
  the initial value to be `extent[2*axis]` as passed, even when it lies outside
  the range.
- `LoadFiles`, `CreateOutline`, `Render3DWithSliders` (window and renderer set-up)
  and `main` are I/O and plumbing. `Planes.InteractiveSession` stands in for
  the order `main` runs things in.
- `MeshParts.ColorSpecificParts`: directory enumeration (`os.listdir`) becomes
  an input list of names. `os.path.join` and reading the mesh file are not
  modelled.
- `MeshParts.ColorSpecificParts`: the console output is not modelled. This
  covers the structure name, the colour name from `colorNames` and the opacity
  note.
- Floating-point arithmetic in the centre computation is modelled with exact
  reals (`Geometry`). Rounding error is not captured. Elsewhere the start
  indices are an integer parameter.

## Findings

| source | as written | input that shows it | evidently intended | confidence | as-written member | corrected member |
|---|---|---|---|---|---|---|
| InnerEarVisualization.py:163 | start index `int(center[i] / spacing[i])` with `center[i] = origin[i] + (dim[i]-1)*spacing[i]/2`, which adds the origin into a voxel index | dimension 100, spacing 1.0, origin -100.0: index -50, outside 0..99, so the slice is empty | the index of the middle voxel, `int((center[i] - origin[i]) / spacing[i])` = (dim-1)/2 | medium (not executed; volumes with origin 0 are unaffected) | `Geometry.StartIndexAsWrittenLeavesVolume` | `Geometry.StartIndex` |
