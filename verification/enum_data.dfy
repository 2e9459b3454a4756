/** The concrete enums of `system/component_enum_data.py`: component
    types, colours, character sides and axes, each listed in declaration
    order. Axis vectors hold the integers their float components equal. */
module EnumData {
  import opened Wrappers
  import opened PyStr
  import opened EnumTable

  // ---------------------------------------------------------------------
  // ComponentType and Color
  // ---------------------------------------------------------------------

  datatype ComponentType =
    | Anim | Character | Cluster | Component | Control
    | Hier | Manager | Matrix | Motion | Setup

  const ComponentTypes: seq<ComponentType> :=
    [Anim, Character, Cluster, Component, Control, Hier, Manager, Matrix, Motion, Setup]

  function ComponentTypeValue(t: ComponentType): nat {
    match t
    case Anim => 0
    case Character => 1
    case Cluster => 2
    case Component => 3
    case Control => 4
    case Hier => 5
    case Manager => 6
    case Matrix => 7
    case Motion => 8
    case Setup => 9
  }

  /** Every component type sits at the index its value names. */
  lemma ComponentTypeIndexIsValue(t: ComponentType)
    ensures IndexOf(ComponentTypes, t) == Some(ComponentTypeValue(t))
    ensures Get(ComponentTypes, ComponentTypeValue(t)) == Some(t)
  {
    ComponentTypesIndexed();
    DistinctByIndex(ComponentTypes, ComponentTypeValue);
    ComponentTypeAt(t);
    GetIndexOfInverse(ComponentTypes, ComponentTypeValue(t));
  }

  lemma ComponentTypesIndexed()
    ensures forall k :: 0 <= k < |ComponentTypes| ==> ComponentTypeValue(ComponentTypes[k]) == k
  {
    forall k | 0 <= k < |ComponentTypes| ensures ComponentTypeValue(ComponentTypes[k]) == k {
      assert k in {0, 1, 2, 3, 4, 5, 6, 7, 8, 9};
    }
  }

  lemma ComponentTypeAt(t: ComponentType)
    ensures ComponentTypeValue(t) < |ComponentTypes| && ComponentTypes[ComponentTypeValue(t)] == t
  {
    match t
    case Anim =>
    case Character =>
    case Cluster =>
    case Component =>
    case Control =>
    case Hier =>
    case Manager =>
    case Matrix =>
    case Motion =>
    case Setup =>
  }

  /** The colour values, in declaration order (none, blue, dark_blue,
      dark_red, gold, green, light_blue, light_green, light_orange,
      light_pink, magenta, purple, red, yellow). */
  const ColorValues: seq<int> := [-1, 6, 15, 11, 25, 14, 18, 19, 21, 20, 9, 8, 13, 17]

  /** `Color.create_remap` spans the colour indices from -1 (none) to 25
      (gold). */
  lemma ColorRemapBounds()
    ensures SeqMin(ColorValues) == -1 && SeqMax(ColorValues) == 25
  {
    assert ColorValues[0] == -1 && ColorValues[4] == 25;
    RemapBoundsAreMinMax(ColorValues, -1, 25);
  }

  // ---------------------------------------------------------------------
  // CharacterSide
  // ---------------------------------------------------------------------

  datatype CharacterSide =
    | NoSide | Mid | Right | Left | Front | Back | Top | Bottom | In | Out

  const Sides: seq<CharacterSide> :=
    [NoSide, Mid, Right, Left, Front, Back, Top, Bottom, In, Out]

  /** The Python member name (`none`, ..., `in_`, `out`). */
  function SideName(s: CharacterSide): string {
    match s
    case NoSide => "none"
    case Mid => "mid"
    case Right => "right"
    case Left => "left"
    case Front => "front"
    case Back => "back"
    case Top => "top"
    case Bottom => "bottom"
    case In => "in_"
    case Out => "out"
  }

  /** The member value, the prefix used in instance namespaces. */
  function SideValue(s: CharacterSide): string {
    match s
    case NoSide => "none"
    case Mid => "M"
    case Right => "R"
    case Left => "L"
    case Front => "Frnt"
    case Back => "Bck"
    case Top => "Top"
    case Bottom => "Btm"
    case In => "In"
    case Out => "out"
  }

  /** The declaration position of a side. */
  function SideIndex(s: CharacterSide): (r: nat)
    ensures r < |Sides| && Sides[r] == s
  {
    match s
    case NoSide => 0
    case Mid => 1
    case Right => 2
    case Left => 3
    case Front => 4
    case Back => 5
    case Top => 6
    case Bottom => 7
    case In => 8
    case Out => 9
  }

  lemma SidesDistinct()
    ensures Distinct(Sides)
    ensures forall s :: s in Sides
  {
    forall k | 0 <= k < |Sides| ensures SideIndex(Sides[k]) == k {
      assert k in {0, 1, 2, 3, 4, 5, 6, 7, 8, 9};
    }
    DistinctByIndex(Sides, SideIndex);
    forall s ensures s in Sides {
      assert Sides[SideIndex(s)] == s;
    }
  }

  function SideNames(): (r: seq<string>)
    ensures |r| == |Sides| && forall k :: 0 <= k < |Sides| ==> r[k] == SideName(Sides[k])
  {
    seq(|Sides|, k requires 0 <= k < |Sides| => SideName(Sides[k]))
  }

  /** `CharacterSide.opposite`: the dict literal covers every side (mid is
      listed twice, to the same effect), so no KeyError can occur. */
  function OppositeSide(s: CharacterSide): CharacterSide {
    match s
    case NoSide => NoSide
    case Mid => Mid
    case Right => Left
    case Left => Right
    case Front => Back
    case Back => Front
    case In => Out
    case Out => In
    case Top => Bottom
    case Bottom => Top
  }

  /** Opposite is an involution whose only fixed points are none and mid. */
  lemma SideOppositeInvolution(s: CharacterSide)
    ensures OppositeSide(OppositeSide(s)) == s
    ensures OppositeSide(s) == s <==> s == NoSide || s == Mid
  {
  }

  /** The named pairs: right/left, front/back, top/bottom, in_/out. */
  lemma SideOppositePairs()
    ensures OppositeSide(Right) == Left && OppositeSide(Front) == Back
    ensures OppositeSide(Top) == Bottom && OppositeSide(In) == Out
    ensures OppositeSide(NoSide) == NoSide && OppositeSide(Mid) == Mid
  {
  }

  /** Opposites in the legacy table of `system/component_enum.py` are the
      same: none and mid are the only sides left in place. */
  lemma SideOppositeFixedPoints()
    ensures forall s :: OppositeSide(s) == s ==> s in {NoSide, Mid}
    ensures forall s :: OppositeSide(OppositeSide(s)) == s
  {
  }

  /** `opposite_mapping`: side name to the index of its opposite. */
  function SideOppositeMapping(): (r: seq<(string, nat)>)
    ensures |r| == 10
    ensures forall k :: 0 <= k < 10 ==> r[k].0 == SideName(Sides[k]) && r[k].1 < 10
    ensures forall k :: 0 <= k < 10 ==> r[r[k].1].1 == k
  {
    SidesDistinct();
    forall s ensures OppositeSide(OppositeSide(s)) == s {
      SideOppositeInvolution(s);
    }
    IndexMappingInvolution(Sides, SideName, OppositeSide);
    IndexMapping(Sides, SideName, OppositeSide)
  }

  /** `CharacterSide.maya_enum_str`: the joined names with every "_"
      deleted, so `in_` appears as `in`. */
  function SideMayaEnumStr(): (r: string)
    ensures '_' !in r
  {
    var joined := MayaEnumStr(SideNames());
    ReplaceByEmptyDeletes(joined, '_');
    Replace(joined, "_", "")
  }

  /** The side names with every "_" deleted. */
  const SideWords: seq<string> := ["none", "mid", "right", "left", "front", "back", "top", "bottom", "in", "out"]

  /** The side enum string lists the names with "in_" written "in": it
      splits on ":" into exactly these ten words. */
  lemma SideMayaEnumStrValue()
    ensures SideMayaEnumStr() == MayaEnumStr(SideWords)
    ensures Split(SideMayaEnumStr(), ':') == SideWords
    ensures Count(SideMayaEnumStr(), ':') == 9
  {
    var names := SideNames();
    var joined := MayaEnumStr(names);
    ReplaceByEmptyDeletes(joined, '_');
    DeleteJoin(names, ':', '_');
    SideNamesCleaned();
    SideWordsNoColon();
    MayaEnumStrRoundTrip(SideWords);
    MayaEnumStrSeparators(SideWords);
  }

  lemma SideNamesCleaned()
    ensures DeleteEach(SideNames(), '_') == SideWords
  {
    var names := SideNames();
    forall k | 0 <= k < 10 ensures Delete(names[k], '_') == SideWords[k] {
      SideNameCleaned(k);
    }
  }

  lemma SideNameCleaned(k: nat)
    requires k < 10
    ensures Delete(SideName(Sides[k]), '_') == SideWords[k]
  {
    if k == 8 {
      assert SideName(Sides[8]) == "in" + "_";
      DeleteAppend("in", "_", '_');
      DeleteAbsent("in", '_');
    } else {
      assert SideName(Sides[k]) == SideWords[k] && '_' !in SideWords[k] by {
        assert k in {0, 1, 2, 3, 4, 5, 6, 7, 9};
      }
      DeleteAbsent(SideWords[k], '_');
    }
  }

  lemma SideWordsNoColon()
    ensures forall k :: 0 <= k < |SideWords| ==> ':' !in SideWords[k]
  {
    forall k | 0 <= k < |SideWords| ensures ':' !in SideWords[k] {
      assert k in {0, 1, 2, 3, 4, 5, 6, 7, 8, 9};
    }
  }

  function DeleteEach(parts: seq<string>, c: char): (r: seq<string>)
    ensures |r| == |parts| && forall k :: 0 <= k < |parts| ==> r[k] == Delete(parts[k], c)
  {
    seq(|parts|, k requires 0 <= k < |parts| => Delete(parts[k], c))
  }

  lemma DeleteAroundSep(a: string, sep: char, b: string, c: char)
    requires sep != c
    ensures Delete(a + [sep] + b, c) == Delete(a, c) + [sep] + Delete(b, c)
  {
    DeleteAppend(a + [sep], b, c);
    DeleteAppend(a, [sep], c);
    DeleteAbsent([sep], c);
    assert Delete(a + [sep], c) == Delete(a, c) + [sep];
  }

  lemma {:induction false} DeleteJoin(parts: seq<string>, sep: char, c: char)
    requires sep != c
    ensures Delete(Join(parts, sep), c) == Join(DeleteEach(parts, c), sep)
    decreases |parts|
  {
    var d := DeleteEach(parts, c);
    if |parts| > 1 {
      var rest := Join(parts[1..], sep);
      DeleteJoin(parts[1..], sep, c);
      assert Join(parts, sep) == parts[0] + [sep] + rest;
      DeleteAroundSep(parts[0], sep, rest, c);
      assert d[1..] == DeleteEach(parts[1..], c);
      assert Join(d, sep) == d[0] + [sep] + Join(d[1..], sep);
    } else if |parts| == 1 {
      assert Join(d, sep) == d[0];
    }
  }

  // ---------------------------------------------------------------------
  // AxisEnum
  // ---------------------------------------------------------------------

  datatype Axis = X | Y | Z | NegX | NegY | NegZ

  const Axes: seq<Axis> := [X, Y, Z, NegX, NegY, NegZ]

  function AxisName(a: Axis): string {
    match a
    case X => "x"
    case Y => "y"
    case Z => "z"
    case NegX => "neg_x"
    case NegY => "neg_y"
    case NegZ => "neg_z"
  }

  function AxisValue(a: Axis): seq<int> {
    match a
    case X => [1, 0, 0]
    case Y => [0, 1, 0]
    case Z => [0, 0, 1]
    case NegX => [-1, 0, 0]
    case NegY => [0, -1, 0]
    case NegZ => [0, 0, -1]
  }

  /** The declaration position of an axis. */
  function AxisIndex(a: Axis): (r: nat)
    ensures r < 6 && Axes[r] == a
  {
    match a
    case X => 0
    case Y => 1
    case Z => 2
    case NegX => 3
    case NegY => 4
    case NegZ => 5
  }

  /** `index_of` on the axes is the declaration position. */
  lemma AxisIndexIsIndexOf(a: Axis)
    ensures Distinct(Axes)
    ensures IndexOf(Axes, a) == Some(AxisIndex(a))
    ensures Get(Axes, AxisIndex(a)) == Some(a)
  {
    forall k | 0 <= k < |Axes| ensures AxisIndex(Axes[k]) == k {
      assert k in {0, 1, 2, 3, 4, 5};
    }
    DistinctByIndex(Axes, AxisIndex);
    GetIndexOfInverse(Axes, AxisIndex(a));
  }

  function OppositeAxis(a: Axis): Axis {
    match a
    case X => NegX
    case NegX => X
    case Y => NegY
    case NegY => Y
    case Z => NegZ
    case NegZ => Z
  }

  /** Opposite is an involution that negates the vector and moves the index
      by three. */
  lemma AxisOppositeInvolution(a: Axis)
    ensures OppositeAxis(OppositeAxis(a)) == a
    ensures OppositeAxis(a) != a
    ensures forall i :: 0 <= i < 3 ==> AxisValue(OppositeAxis(a))[i] == -AxisValue(a)[i]
    ensures AxisIndex(OppositeAxis(a)) == (AxisIndex(a) + 3) % 6
    ensures IndexOf(Axes, OppositeAxis(a)) == Some((AxisIndex(a) + 3) % 6)
  {
    AxisOppositeNegates(a);
    AxisOppositeIndex(a);
    AxisIndexIsIndexOf(OppositeAxis(a));
  }

  lemma AxisOppositeNegates(a: Axis)
    ensures forall i :: 0 <= i < 3 ==> AxisValue(OppositeAxis(a))[i] == -AxisValue(a)[i]
  {
    match a
    case X =>
    case Y =>
    case Z =>
    case NegX =>
    case NegY =>
    case NegZ =>
  }

  lemma AxisOppositeIndex(a: Axis)
    ensures OppositeAxis(OppositeAxis(a)) == a && OppositeAxis(a) != a
    ensures AxisIndex(OppositeAxis(a)) == (AxisIndex(a) + 3) % 6
  {
    match a
    case X =>
    case Y =>
    case Z =>
    case NegX =>
    case NegY =>
    case NegZ =>
  }

  /** The index arithmetic of `other_axes`: the next two indices of the
      input's sign group, wrapping inside the group, then sorted. */
  function OtherAxisIndices(index: nat): (r: seq<nat>)
    ensures |r| == 2
  {
    var others := if index < 3 then [(index + 1) % 3, (index + 2) % 3]
                  else [((index - 3 + 1) % 3) + 3, ((index - 3 + 2) % 3) + 3];
    if others[0] <= others[1] then others else [others[1], others[0]]
  }

  /** `other_axes`: the two other axes of the input's sign group, by
      ascending index. */
  function OtherAxes(a: Axis): (r: seq<Axis>)
    ensures |r| == 2
  {
    var sorted := OtherAxisIndices(AxisIndex(a));
    OtherAxisIndicesShape(AxisIndex(a));
    [Get(Axes, sorted[0]).value, Get(Axes, sorted[1]).value]
  }

  lemma OtherAxisIndicesShape(index: nat)
    requires index < 6
    ensures var r := OtherAxisIndices(index);
            r[0] < r[1] < 6 && r[0] != index && r[1] != index &&
            (r[0] < 3 <==> index < 3) && (r[1] < 3 <==> index < 3)
  {
    assert index in {0, 1, 2, 3, 4, 5};
  }

  /** The two axes differ from each other and from the input, share its
      sign group and come in ascending index order. */
  lemma OtherAxesShape(a: Axis)
    ensures var r := OtherAxes(a);
            r[0] != r[1] && r[0] != a && r[1] != a &&
            (AxisIndex(r[0]) < 3 <==> AxisIndex(a) < 3) &&
            (AxisIndex(r[1]) < 3 <==> AxisIndex(a) < 3) &&
            AxisIndex(r[0]) < AxisIndex(r[1])
  {
    var sorted := OtherAxisIndices(AxisIndex(a));
    OtherAxisIndicesShape(AxisIndex(a));
    AxisIndexAt(sorted[0]);
    AxisIndexAt(sorted[1]);
  }

  lemma AxisIndexAt(k: nat)
    requires k < 6
    ensures AxisIndex(Axes[k]) == k
  {
    assert k in {0, 1, 2, 3, 4, 5};
  }

  /** With the input, the two other axes make up the input's whole sign
      group. */
  lemma OtherAxesComplement(a: Axis)
    ensures var group := if AxisIndex(a) < 3 then {X, Y, Z} else {NegX, NegY, NegZ};
            {a, OtherAxes(a)[0], OtherAxes(a)[1]} == group
  {
    OtherAxesShape(a);
  }

  /** `scale_vec`: a copy of the axis vector with every 0 replaced by 1. */
  method ScaleVec(a: Axis) returns (v: seq<int>)
    ensures |v| == |AxisValue(a)|
    ensures forall i :: 0 <= i < |v| ==> v[i] != 0
    ensures forall i :: 0 <= i < |v| ==> (AxisValue(a)[i] != 0 ==> v[i] == AxisValue(a)[i])
    ensures forall i :: 0 <= i < |v| ==> (AxisValue(a)[i] == 0 ==> v[i] == 1)
  {
    v := AxisValue(a);
    var i := 0;
    while i < |v|
      invariant 0 <= i <= |v| == |AxisValue(a)|
      invariant forall k :: 0 <= k < i ==> v[k] != 0
      invariant forall k :: 0 <= k < |v| ==> (AxisValue(a)[k] != 0 ==> v[k] == AxisValue(a)[k])
      invariant forall k :: 0 <= k < |v| ==> (AxisValue(a)[k] == 0 && k < i ==> v[k] == 1)
      invariant forall k :: i <= k < |v| ==> v[k] == AxisValue(a)[k]
    {
      if v[i] == 0 {
        v := v[i := 1];
      }
      i := i + 1;
    }
  }

  /** Every axis' opposite is an axis of the table. */
  lemma OppositeAxesListed()
    ensures forall k :: 0 <= k < |Axes| ==> OppositeAxis(Axes[k]) in Axes
  {
    forall k | 0 <= k < |Axes| ensures OppositeAxis(Axes[k]) in Axes {
      var b := OppositeAxis(Axes[k]);
      assert Axes[AxisIndex(b)] == b;
    }
  }

  /** The entry of the k-th axis points three places on. */
  lemma AxisMappingEntry(k: nat)
    requires k < 6
    ensures forall i :: 0 <= i < |Axes| ==> OppositeAxis(Axes[i]) in Axes
    ensures IndexMapping(Axes, AxisName, OppositeAxis)[k].1 == (k + 3) % 6
  {
    OppositeAxesListed();
    var j := IndexMapping(Axes, AxisName, OppositeAxis)[k].1;
    AxisIndexAt(k);
    AxisIndexAt(j);
    AxisOppositeInvolution(Axes[k]);
  }

  /** `AxisEnum.create_remap` feeds the index of each axis' opposite into
      the remap; that mapping is an involution on indices too. */
  function AxisOppositeMapping(): (r: seq<(string, nat)>)
    ensures |r| == 6
    ensures forall k :: 0 <= k < 6 ==> r[k].0 == AxisName(Axes[k]) && r[k].1 == (k + 3) % 6
  {
    OppositeAxesListed();
    var r := IndexMapping(Axes, AxisName, OppositeAxis);
    forall k | 0 <= k < 6 ensures r[k].1 == (k + 3) % 6 {
      AxisMappingEntry(k);
    }
    r
  }
}
