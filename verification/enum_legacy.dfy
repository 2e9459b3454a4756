/** `system/component_enum.py`, the older copy of the enum module. Its
    `MayaEnumAttr`, `Colors`, `CharacterSide` and `AxisEnums` have the same
    code and tables as those of `system/component_enum_data.py` and share
    their definitions; only the component-type table differs. */
module LegacyEnum {
  import opened Wrappers
  import opened EnumTable
  import EnumData

  /** The legacy `ComponentTypes` (no cluster or manager, but
      control_setup). */
  datatype ComponentTypes =
    | Anim | Character | Component | ControlSetup | Control
    | Hier | Matrix | Motion | Setup

  const Members: seq<ComponentTypes> :=
    [Anim, Character, Component, ControlSetup, Control, Hier, Matrix, Motion, Setup]

  function Value(t: ComponentTypes): nat {
    match t
    case Anim => 0
    case Character => 1
    case Component => 2
    case ControlSetup => 3
    case Control => 4
    case Hier => 5
    case Matrix => 6
    case Motion => 7
    case Setup => 8
  }

  function Values(): (r: seq<int>)
    ensures |r| == |Members| && forall k :: 0 <= k < |Members| ==> r[k] == Value(Members[k])
  {
    seq(|Members|, k requires 0 <= k < |Members| => Value(Members[k]))
  }

  lemma ValuesAreIndices()
    ensures forall k :: 0 <= k < |Members| ==> Value(Members[k]) == k
  {
    forall k | 0 <= k < |Members| ensures Value(Members[k]) == k {
      assert k in {0, 1, 2, 3, 4, 5, 6, 7, 8};
    }
  }

  /** The values run 0, 1, 2, ... in declaration order, so `index_of(t)` is
      `t.value` and `get(t.value)` is `t`. */
  lemma ComponentTypesIndexIsValue(t: ComponentTypes)
    ensures IndexOf(Members, t) == Some(Value(t))
    ensures Get(Members, Value(t)) == Some(t)
  {
    ValuesAreIndices();
    DistinctByIndex(Members, Value);
    assert Members[Value(t)] == t;
    GetIndexOfInverse(Members, Value(t));
  }

  /** `create_remap` on the legacy component types spans 0 to 8. */
  lemma ComponentTypesRemapBounds()
    ensures SeqMin(Values()) == 0 && SeqMax(Values()) == 8
  {
    ValuesAreIndices();
    var v := Values();
    assert v[0] == 0 && v[8] == 8;
    RemapBoundsAreMinMax(v, 0, 8);
  }

  /** The legacy axis table: every axis has an opposite different from
      itself, and taking it twice gives the axis back. */
  lemma AxesOppositeInvolution()
    ensures forall a :: EnumData.OppositeAxis(EnumData.OppositeAxis(a)) == a && EnumData.OppositeAxis(a) != a
  {
  }
}
