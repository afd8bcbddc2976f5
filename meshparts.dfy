/** ColorSpecificParts: turning the entries of the model directory into the
    styled surface-mesh actors of the inner ear. Each `.vtk` entry gets a
    structure name derived from its file name, a colour picked by its position in
    the directory listing, and a reduced opacity if it is one of three large
    models that would otherwise hide the rest.
 */
module MeshParts {
  import opened PyStrings

  datatype Rgb = Rgb(r: real, g: real, b: real)

  /** The colour table, cycled through by listing position. */
  const Colors: seq<Rgb> := [
    Rgb(0.6, 1.0, 0.6),  // light green
    Rgb(0.0, 1.0, 0.0),  // green
    Rgb(0.0, 0.0, 1.0),  // blue
    Rgb(0.5, 0.5, 0.5),  // gray
    Rgb(0.6, 0.8, 1.0),  // light blue
    Rgb(1.0, 0.7, 0.7),  // pink
    Rgb(1.0, 0.0, 0.0),  // red
    Rgb(0.6, 0.4, 0.2)   // brownish
  ]

  /** The models drawn see-through. */
  const ReducedOpacityFiles: seq<string> := [
    "Model_3_Temporal_Bone.vtk",
    "Model_21_Internal_Jugular_Vein.vtk",
    "Model_24_Internal_Carotid_Artery.vtk"
  ]

  const ReducedOpacity: real := 0.1

  /** The opacity an actor ends with: left at the actor's default, or set. */
  datatype Opacity = Unchanged | SetTo(value: real)

  /** What ColorSpecificParts configures on one actor. */
  datatype MeshActor = MeshActor(fileName: string, structureName: string, color: Rgb, opacity: Opacity)

  predicate IsVtkFile(name: string) { EndsWith(name, ".vtk") }

  /** `name.split('_', 2)[-1]`. */
  function StructurePart(name: string): string {
    Last(Split(name, '_', 2))
  }

  /** The split keeps what follows the second underscore, or the first when
      there is only one, or the whole name when there is none: the part is a
      suffix of the name whose prefix holds min(2, #underscores) underscores and,
      unless empty, ends with one. */
  lemma StructurePartIsTail(name: string)
    ensures |StructurePart(name)| <= |name|
    ensures name[|name| - |StructurePart(name)|..] == StructurePart(name)
    ensures CountIn(name, '_', 0, |name| - |StructurePart(name)|)
         == (if Count(name, '_') < 2 then Count(name, '_') else 2)
    ensures |StructurePart(name)| < |name| ==> name[|name| - |StructurePart(name)| - 1] == '_'
  {
    SplitLastIsTail(name, '_', 2);
    SplitCutCount(name, '_', 2);
    SplitCutAfterSeparator(name, '_', 2);
  }

  /** The structure name: the split part with every `.vtk` removed and every
      underscore turned into a space. */
  function StructureName(name: string): (s: string)
    ensures '_' !in s
  {
    var stripped := Replace(StructurePart(name), ".vtk", "");
    ReplaceCharRemovesAll(stripped, '_', ' ');
    Replace(stripped, "_", " ")
  }

  /** For a file named `Model_<n>_<words>.vtk`, whose words contain no dot, the
      structure name is the words with spaces for underscores. */
  lemma {:induction false} StructureNameOfModelFile(prefix: string, number: string, words: string)
    requires '_' !in prefix && '_' !in number && '.' !in words
    ensures |StructureName(prefix + "_" + number + "_" + words + ".vtk")| == |words|
    ensures forall k :: 0 <= k < |words| ==>
              StructureName(prefix + "_" + number + "_" + words + ".vtk")[k] == if words[k] == '_' then ' ' else words[k]
  {
    var rest := words + ".vtk";
    var name := prefix + "_" + number + "_" + rest;
    assert prefix + "_" + number + "_" + words + ".vtk" == name;
    var p, q := |prefix|, |prefix| + 1 + |number|;
    assert forall l :: 0 <= l < p ==> name[l] == prefix[l];
    assert forall l :: p + 1 <= l < q ==> name[l] == number[l - p - 1];
    FindFromAt(name, '_', 0, p);
    FindFromAt(name, '_', p + 1, q);
    assert SplitCut(name, '_', 2) == q + 1 by {
      assert CutFrom(name, '_', 0, 2) == CutFrom(name, '_', p + 1, 1);
      assert CutFrom(name, '_', p + 1, 1) == CutFrom(name, '_', q + 1, 0);
    }
    SplitLastIsTail(name, '_', 2);
    assert name[q + 1..] == rest;
    RemoveTrailing(words, ".vtk");
    ReplaceChar(words, '_', ' ');
  }

  /** The worked example from the data set. */
  lemma TemporalBoneName()
    ensures StructureName("Model_3_Temporal_Bone.vtk") == "Temporal Bone"
  {
    var words := "Temporal_Bone";
    assert "Model_3_Temporal_Bone.vtk" == "Model" + "_" + "3" + "_" + words + ".vtk";
    assert '.' !in words by {
      forall k | 0 <= k < |words| ensures words[k] != '.' { }
    }
    StructureNameOfModelFile("Model", "3", words);
    SpacedWords(StructureName("Model_3_Temporal_Bone.vtk"));
  }

  /** The only string "Temporal_Bone" maps to position by position. */
  lemma SpacedWords(r: string)
    requires |r| == 13
    requires forall k :: 0 <= k < 13 ==> r[k] == if "Temporal_Bone"[k] == '_' then ' ' else "Temporal_Bone"[k]
    ensures r == "Temporal Bone"
  {
  }

  /** The colour table index for listing position `i`: always a valid index,
      counting every directory entry, and repeating every eight entries. */
  function ColorIndex(i: nat): (k: nat)
    ensures k < |Colors| && k < 8
    ensures i < 8 ==> k == i
  {
    i % |Colors|
  }

  lemma ColorIndexCycles(i: nat)
    ensures ColorIndex(i + 8) == ColorIndex(i)
  {
  }

  /** The opacity rule: 0.1 for exactly the three listed files, otherwise left
      alone. */
  function OpacityFor(name: string): (o: Opacity)
    ensures o == SetTo(ReducedOpacity) <==> name in ReducedOpacityFiles
    ensures o.Unchanged? <==> name !in ReducedOpacityFiles
  {
    if name in ReducedOpacityFiles then SetTo(ReducedOpacity) else Unchanged
  }

  /** The actor built for the `.vtk` entry `name` found at listing position `i`. */
  function PartFor(name: string, i: nat): MeshActor {
    MeshActor(name, StructureName(name), Colors[ColorIndex(i)], OpacityFor(name))
  }

  /** The actors for a directory listing, in listing order; entries that are not
      `.vtk` files produce nothing but still advance the position. */
  function Parts(entries: seq<string>): seq<MeshActor> {
    if entries == [] then []
    else
      var n := |entries| - 1;
      Parts(entries[..n]) + (if IsVtkFile(entries[n]) then [PartFor(entries[n], n)] else [])
  }

  /** Number of `.vtk` entries in a listing. */
  function CountVtk(entries: seq<string>): nat {
    if entries == [] then 0
    else CountVtk(entries[..|entries| - 1]) + (if IsVtkFile(entries[|entries| - 1]) then 1 else 0)
  }

  /** One actor per `.vtk` entry. */
  lemma {:induction false} PartsLength(entries: seq<string>)
    ensures |Parts(entries)| == CountVtk(entries)
  {
    if entries != [] {
      PartsLength(entries[..|entries| - 1]);
    }
  }

  /** The `.vtk` entry at position `j` becomes the actor right after those made
      for the `.vtk` entries before it, and is styled with colour `j % 8`. */
  lemma {:induction false} PartsAt(entries: seq<string>, j: nat)
    requires j < |entries| && IsVtkFile(entries[j])
    ensures CountVtk(entries[..j]) < |Parts(entries)|
    ensures Parts(entries)[CountVtk(entries[..j])] == PartFor(entries[j], j)
  {
    var n := |entries| - 1;
    var prefix := entries[..n];
    PartsLength(prefix);
    if j == n {
      assert entries[..j] == prefix;
    } else {
      assert prefix[..j] == entries[..j];
      PartsAt(prefix, j);
    }
  }

  /** Every actor comes from a `.vtk` file, carries that file's structure name,
      a colour from the table, and the reduced opacity exactly when it is one of
      the listed files. */
  lemma {:induction false} PartsWellFormed(entries: seq<string>)
    ensures forall k :: 0 <= k < |Parts(entries)| ==>
              && IsVtkFile(Parts(entries)[k].fileName)
              && Parts(entries)[k].structureName == StructureName(Parts(entries)[k].fileName)
              && Parts(entries)[k].color in Colors
              && (Parts(entries)[k].opacity == SetTo(ReducedOpacity) <==> Parts(entries)[k].fileName in ReducedOpacityFiles)
              && (Parts(entries)[k].opacity.Unchanged? <==> Parts(entries)[k].fileName !in ReducedOpacityFiles)
  {
    if entries != [] {
      PartsWellFormed(entries[..|entries| - 1]);
    }
  }

  /** ColorSpecificParts over the names `os.listdir` returned, in that order. */
  method ColorSpecificParts(entries: seq<string>) returns (actors: seq<MeshActor>)
    ensures actors == Parts(entries)
  {
    actors := [];
    for i := 0 to |entries|
      invariant actors == Parts(entries[..i])
    {
      var name := entries[i];
      assert entries[..i + 1][..i] == entries[..i];
      if IsVtkFile(name) {
        var actor := MeshActor(name, StructureName(name), Colors[i % |Colors|], Unchanged);
        if name in ReducedOpacityFiles {
          actor := actor.(opacity := SetTo(ReducedOpacity));
        }
        actors := actors + [actor];
      }
    }
    assert entries[..|entries|] == entries;
  }
}
