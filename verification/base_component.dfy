/** The namespace cache of `system/base_component.py`'s `Component`, the
    per-node rename rule of `rename_nodes`, and the per-class instance of
    `SingletonComponent`. What Maya reports (the `hierSide` and
    `instanceName` attributes of the input node, the parent container's
    name) is an input of each step. */
module BaseComponent {
  import opened Wrappers
  import opened PyStr
  import Namespace
  import EnumTable
  import EnumData

  // ---------------------------------------------------------------------
  // The namespace cache
  // ---------------------------------------------------------------------

  /** A Python value that is either `None` or a str (an `instanceName`
      string attribute reads back as `None` when it was never set). */
  datatype StrValue = NoneValue | Str(text: string)

  /** The cached `hier_side`: the initial "" (which no enum index equals)
      or the last side index read. */
  datatype CachedSide = UnsetSide | SideAt(index: int)

  datatype NamespaceCache = NamespaceCache(
    full: string,
    short: string,
    instance: string,
    hierSide: CachedSide,
    instanceName: StrValue)

  /** The dict `Component.__init__` starts from. */
  const InitialCache := NamespaceCache("", "", "", UnsetSide, Str(""))

  /** What `__update_instance_namespace` reads from the input node: each
      attribute is None when the node does not have it. */
  datatype InputNode = InputNode(hierSide: Option<int>, instanceName: Option<StrValue>)

  /** `f"{CharacterSide.get(side).value}_"`; an index outside the enum makes
      `get` return None, whose `.value` is an AttributeError. */
  function SidePrefix(side: int): (r: Result<string, PyException>)
    ensures r.Success? <==> 0 <= side < |EnumData.Sides|
    ensures r.Success? ==> r.value == EnumData.SideValue(EnumData.Sides[side]) + "_"
    ensures r.Failure? ==> r.error == AttributeError
  {
    match EnumTable.Get(EnumData.Sides, side)
    case None => Failure(AttributeError)
    case Some(s) => Success(EnumData.SideValue(s) + "_")
  }

  /** Does the node's side differ from the cached one? */
  predicate SideChanged(c: NamespaceCache, node: InputNode) {
    node.hierSide.Some? && SideAt(node.hierSide.value) != c.hierSide
  }

  /** Does the node's instance name differ from the cached one? */
  predicate NameChanged(c: NamespaceCache, node: InputNode) {
    node.instanceName.Some? && node.instanceName.value != c.instanceName
  }

  /** The cache with the side and name just read remembered. */
  function Remember(c: NamespaceCache, node: InputNode): (r: NamespaceCache)
    ensures r.full == c.full && r.short == c.short && r.instance == c.instance
    ensures !SideChanged(r, node) && !NameChanged(r, node)
    ensures !SideChanged(c, node) && !NameChanged(c, node) ==> r == c
  {
    var c1 := if SideChanged(c, node) then c.(hierSide := SideAt(node.hierSide.value)) else c;
    if NameChanged(c1, node) then c1.(instanceName := node.instanceName.value) else c1
  }

  /** A non-empty name read, or "". */
  function NameText(v: StrValue): string {
    match v
    case NoneValue => ""
    case Str(s) => s
  }

  /** `__update_instance_namespace` as written: the side prefix is only
      produced when the side changed, and the name only when the name
      changed, so a change of one alone drops the other from the instance
      namespace. */
  function UpdateInstanceAsWritten(c: NamespaceCache, input: Option<InputNode>): (r: Result<NamespaceCache, PyException>)
    ensures input.None? ==> r == Success(c)
    ensures r.Success? ==> r.value.full == c.full && r.value.short == c.short
    ensures r.Failure? ==> r.error == AttributeError && input.Some? && SideChanged(c, input.value)
  {
    if input.None? then Success(c)
    else
      var node := input.value;
      var sidePart :- if SideChanged(c, node) then SidePrefix(node.hierSide.value) else Success("");
      var instance := if NameChanged(c, node) then sidePart + NameText(node.instanceName.value) else sidePart;
      var c1 := Remember(c, node);
      Success(if instance != "" then c1.(instance := instance) else c1)
  }

  /** When both the side and a non-empty name are new, the instance
      namespace becomes "<side value>_<name>". */
  lemma InstanceAsWrittenBothChanged(c: NamespaceCache, node: InputNode, name: string)
    requires SideChanged(c, node) && NameChanged(c, node)
    requires 0 <= node.hierSide.value < |EnumData.Sides|
    requires node.instanceName == Some(Str(name)) && name != ""
    ensures var r := UpdateInstanceAsWritten(c, Some(node));
            r.Success? &&
            r.value.instance == EnumData.SideValue(EnumData.Sides[node.hierSide.value]) + "_" + name
  {
  }

  /** Reading back the same side and name leaves the whole cache as it
      was. */
  lemma InstanceAsWrittenUnchanged(c: NamespaceCache, node: InputNode)
    requires !SideChanged(c, node) && !NameChanged(c, node)
    ensures UpdateInstanceAsWritten(c, Some(node)) == Success(c)
  {
  }

  /** A component on side index 2 ("R") named "arm" gets the instance
      namespace "R_arm"; renaming it to "leg" then gives "leg", not
      "R_leg". */
  lemma InstanceAsWrittenDropsSide()
    ensures var first := UpdateInstanceAsWritten(InitialCache, Some(InputNode(Some(2), Some(Str("arm")))));
            first.Success? && first.value.instance == "R_arm" &&
            var second := UpdateInstanceAsWritten(first.value, Some(InputNode(Some(2), Some(Str("leg")))));
            second.Success? && second.value.instance == "leg"
  {
    var first := UpdateInstanceAsWritten(InitialCache, Some(InputNode(Some(2), Some(Str("arm")))));
    assert EnumData.Sides[2] == EnumData.Right;
    assert first.value.instance == "R_" + "arm";
  }

  /** The instance namespace the side and name currently on the node
      describe: "<side value>_" when a side is set, followed by the name. */
  function InstanceOf(node: InputNode): (r: Result<string, PyException>)
    ensures r.Failure? ==> node.hierSide.Some? && r.error == AttributeError
    ensures r.Success? && node.hierSide.None? ==>
              r.value == (if node.instanceName.Some? then NameText(node.instanceName.value) else "")
  {
    var sidePart :- if node.hierSide.Some? then SidePrefix(node.hierSide.value) else Success("");
    Success(sidePart + if node.instanceName.Some? then NameText(node.instanceName.value) else "")
  }

  /** `__update_instance_namespace` as intended: whenever the side or the
      name changed, the instance namespace is rebuilt from both. */
  function UpdateInstance(c: NamespaceCache, input: Option<InputNode>): (r: Result<NamespaceCache, PyException>)
    ensures input.None? ==> r == Success(c)
    ensures input.Some? && !SideChanged(c, input.value) && !NameChanged(c, input.value) ==> r == Success(c)
    ensures r.Success? ==> r.value.full == c.full && r.value.short == c.short
    ensures r.Success? && input.Some? ==> !SideChanged(r.value, input.value) && !NameChanged(r.value, input.value)
  {
    if input.None? then Success(c)
    else
      var node := input.value;
      if !SideChanged(c, node) && !NameChanged(c, node) then Success(c)
      else
        var instance :- InstanceOf(node);
        var c1 := Remember(c, node);
        Success(if instance != "" then c1.(instance := instance) else c1)
  }

  /** After any change on a node with a valid side and a non-empty name,
      the instance namespace is "<side value>_<name>", whichever of the
      two changed. */
  lemma InstanceKeepsBoth(c: NamespaceCache, node: InputNode, name: string)
    requires SideChanged(c, node) || NameChanged(c, node)
    requires node.hierSide.Some? && 0 <= node.hierSide.value < |EnumData.Sides|
    requires node.instanceName == Some(Str(name))
    ensures var r := UpdateInstance(c, Some(node));
            r.Success? &&
            r.value.instance == EnumData.SideValue(EnumData.Sides[node.hierSide.value]) + "_" + name
  {
  }

  /** The intended update agrees with the code as written whenever both
      the side and the name change. */
  lemma InstanceAgreesWhenBothChange(c: NamespaceCache, node: InputNode)
    requires SideChanged(c, node) && NameChanged(c, node)
    ensures UpdateInstance(c, Some(node)) == UpdateInstanceAsWritten(c, Some(node))
  {
  }

  /** `__update_short_namespace`, after the instance namespace is current:
      "<instance>__<class namespace>", or the class namespace alone
      without an instance namespace; a class without a namespace gets the
      "__" removed. */
  function UpdateShort(c: NamespaceCache, classNs: string): (r: NamespaceCache)
    ensures r.full == c.full && r.instance == c.instance && r.hierSide == c.hierSide && r.instanceName == c.instanceName
  {
    var instance := c.instance;
    var short :=
      if instance != "" then
        if !StartsWith(c.short, instance + "__") then instance + "__" + classNs else ""
      else
        if c.short != classNs then classNs else "";
    var c1 := if short != "" then c.(short := short) else c;
    if classNs == "" then c1.(short := Replace(short, "__", "")) else c1
  }

  /** With an instance namespace I and a class namespace, the short
      namespace starts with "I__", and is rebuilt as "I__<class>" when it
      did not. */
  lemma ShortWithInstance(c: NamespaceCache, classNs: string)
    requires c.instance != "" && classNs != ""
    ensures StartsWith(UpdateShort(c, classNs).short, c.instance + "__")
    ensures !StartsWith(c.short, c.instance + "__") ==>
              UpdateShort(c, classNs).short == c.instance + "__" + classNs
    ensures StartsWith(c.short, c.instance + "__") ==> UpdateShort(c, classNs) == c
  {
    var p := c.instance + "__";
    assert StartsWith(p + classNs, p) by {
      assert (p + classNs)[..|p|] == p;
    }
  }

  /** Without an instance namespace the short namespace is the class
      namespace. */
  lemma ShortWithoutInstance(c: NamespaceCache, classNs: string)
    requires c.instance == "" && classNs != ""
    ensures UpdateShort(c, classNs).short == classNs
  {
  }

  /** `__update_full_namespace`, after the short namespace is current.
      `parent` is the name of the enclosing container, if any. */
  function UpdateFull(c: NamespaceCache, parent: Option<string>): (r: NamespaceCache)
    ensures r.short == c.short && r.instance == c.instance && r.hierSide == c.hierSide && r.instanceName == c.instanceName
  {
    var short := c.short;
    var cached := c.full;
    var full :=
      match parent
      case None =>
        if Find(cached, short) != 1 then ":" + short else ""
      case Some(p) =>
        var parentNs := Namespace.GetNamespace(p);
        if Find(cached, parentNs) != 0 then parentNs + ":" + short
        else if Find(ReplaceFirst(cached, parentNs, ""), short) != 1 then parentNs + ":" + short
        else "";
    if full != "" then c.(full := full) else c
  }

  /** At the top level the full namespace is ":<short>", or it is kept
      because it already holds the short namespace right after its first
      character; so a cache that is empty or starts with ":" ends up
      starting with ":<short>". */
  lemma FullAtTopLevel(c: NamespaceCache)
    ensures var r := UpdateFull(c, None);
            r.full == ":" + c.short || (r.full == c.full && OccursAt(c.full, c.short, 1))
    ensures c.full == "" || c.full[0] == ':' ==> StartsWith(UpdateFull(c, None).full, ":" + c.short)
  {
    var r := UpdateFull(c, None);
    if Find(c.full, c.short) == 1 {
      assert c.full[1..1 + |c.short|] == c.short;
      if c.full != "" {
        assert c.full[..1 + |c.short|] == [c.full[0]] + c.full[1..1 + |c.short|];
      }
    } else {
      assert (":" + c.short)[..1 + |c.short|] == ":" + c.short;
    }
  }

  /** Inside a parent container the full namespace starts with the
      parent's namespace. */
  lemma FullInParent(c: NamespaceCache, parent: string)
    ensures StartsWith(UpdateFull(c, Some(parent)).full, Namespace.GetNamespace(parent))
  {
    var ns := Namespace.GetNamespace(parent);
    var r := UpdateFull(c, Some(parent));
    SettledStarts(ns, c.short);
    if Find(c.full, ns) == 0 {
      FoundAtStart(c.full, ns);
    }
  }

  /** The short and then the full namespace refreshed after the instance
      namespace; under a parent the result starts with the parent's
      namespace. */
  function RefreshNames(c: NamespaceCache, classNs: string, parent: Option<string>): (r: NamespaceCache)
    ensures r.instance == c.instance && r.hierSide == c.hierSide && r.instanceName == c.instanceName
    ensures parent.Some? ==> StartsWith(r.full, Namespace.GetNamespace(parent.value))
  {
    var c1 := UpdateShort(c, classNs);
    var r := UpdateFull(c1, parent);
    assert parent.Some? ==> StartsWith(r.full, Namespace.GetNamespace(parent.value)) by {
      if parent.Some? {
        FullInParent(c1, parent.value);
      }
    }
    r
  }

  /** What reading `full_namespace` does: the property refreshes the short
      namespace, which refreshes the instance namespace first, with
      `__update_instance_namespace` as written. */
  function Refresh(c: NamespaceCache, input: Option<InputNode>, classNs: string, parent: Option<string>): (r: Result<NamespaceCache, PyException>)
    ensures r.Failure? ==> r.error == AttributeError
    ensures r.Success? && parent.Some? ==> StartsWith(r.value.full, Namespace.GetNamespace(parent.value))
    ensures UpdateInstanceAsWritten(c, input).Success? <==> r.Success?
    ensures r.Success? ==> r.value.instance == UpdateInstanceAsWritten(c, input).value.instance
  {
    var c1 :- UpdateInstanceAsWritten(c, input);
    Success(RefreshNames(c1, classNs, parent))
  }

  /** `Refresh` with the intended instance update. */
  function RefreshIntended(c: NamespaceCache, input: Option<InputNode>, classNs: string, parent: Option<string>): (r: Result<NamespaceCache, PyException>)
    ensures r.Failure? ==> r.error == AttributeError
    ensures r.Success? && parent.Some? ==> StartsWith(r.value.full, Namespace.GetNamespace(parent.value))
    ensures UpdateInstance(c, input).Success? <==> r.Success?
    ensures r.Success? ==> r.value.instance == UpdateInstance(c, input).value.instance
  {
    var c1 :- UpdateInstance(c, input);
    Success(RefreshNames(c1, classNs, parent))
  }

  /** At the top level, a short namespace not yet led by "<instance>__"
      is rebuilt, and a full namespace not holding the new short one
      right after its first character becomes ":<short>". */
  lemma RefreshTopLevel(c: NamespaceCache, classNs: string)
    requires c.instance != "" && classNs != ""
    requires !StartsWith(c.short, c.instance + "__")
    requires !OccursAt(c.full, c.instance + "__" + classNs, 1)
    ensures RefreshNames(c, classNs, None).short == c.instance + "__" + classNs
    ensures RefreshNames(c, classNs, None).full == ":" + RefreshNames(c, classNs, None).short
  {
    var short := c.instance + "__" + classNs;
    assert UpdateShort(c, classNs).short == short;
    assert Find(c.full, short) != 1;
  }

  /** A top-level rename that keeps the side: with the code as written the
      instance namespace becomes the bare new name, so a component that
      read ":R_arm__hier" reads ":leg__hier" once renamed to "leg". */
  lemma RefreshAfterRename(c: NamespaceCache, node: InputNode, name: string, classNs: string)
    requires !SideChanged(c, node) && NameChanged(c, node) && node.instanceName == Some(Str(name))
    requires name != "" && classNs != ""
    requires !StartsWith(c.short, name + "__") && !OccursAt(c.full, name + "__" + classNs, 1)
    ensures var r := Refresh(c, Some(node), classNs, None);
            r.Success? && r.value.instance == name &&
            r.value.short == name + "__" + classNs && r.value.full == ":" + r.value.short
  {
    var c1 := UpdateInstanceAsWritten(c, Some(node)).value;
    assert c1.instance == name;
    RefreshTopLevel(c1, classNs);
  }

  /** The same rename with the intended update keeps the side prefix:
      ":R_arm__hier" renamed to "leg" reads ":R_leg__hier". */
  lemma RefreshIntendedAfterRename(c: NamespaceCache, node: InputNode, side: nat, name: string, classNs: string)
    requires node.hierSide == Some(side) && side < |EnumData.Sides|
    requires NameChanged(c, node) && node.instanceName == Some(Str(name)) && classNs != ""
    requires var instance := EnumData.SideValue(EnumData.Sides[side]) + "_" + name;
             !StartsWith(c.short, instance + "__") && !OccursAt(c.full, instance + "__" + classNs, 1)
    ensures var r := RefreshIntended(c, Some(node), classNs, None);
            r.Success? && r.value.instance == EnumData.SideValue(EnumData.Sides[side]) + "_" + name &&
            r.value.short == r.value.instance + "__" + classNs && r.value.full == ":" + r.value.short
  {
    InstanceKeepsBoth(c, node, name);
    var c1 := UpdateInstance(c, Some(node)).value;
    RefreshTopLevel(c1, classNs);
  }

  // ---------------------------------------------------------------------
  // rename_nodes' inner rename_node
  // ---------------------------------------------------------------------

  /** `rename_node(node, full_namespace)`: the new name of a node, or None
      when its name already starts with the full namespace. */
  function RenameNode(name: string, fullNs: string): (r: Option<string>)
    ensures r.None? <==> StartsWith(name, fullNs)
    ensures r.Some? ==> r.value == fullNs + ":" + Namespace.StripNamespace(name)
  {
    if StartsWith(name, fullNs) then None
    else Some(fullNs + ":" + Namespace.StripNamespace(name))
  }

  /** A renamed node keeps its leaf name, lands in the full namespace, and
      is left alone by a second rename. */
  lemma RenameNodeIdempotent(name: string, fullNs: string)
    requires fullNs != "" && '|' !in fullNs && '|' !in name
    ensures var r := RenameNode(name, fullNs);
            r.Some? ==> RenameNode(r.value, fullNs).None? &&
                        Namespace.StripNamespace(r.value) == Namespace.StripNamespace(name) &&
                        Namespace.GetNamespace(r.value) == fullNs
  {
    var r := RenameNode(name, fullNs);
    if r.Some? {
      var leaf := Namespace.StripNamespace(name);
      LeafKeepsAbsent(name, '|');
      RenamedIsSettled(fullNs, leaf);
    }
  }

  /** A name already of the form `fullNs:leaf` is settled. */
  lemma RenamedIsSettled(fullNs: string, leaf: string)
    requires fullNs != "" && '|' !in fullNs && '|' !in leaf && ':' !in leaf
    ensures RenameNode(fullNs + ":" + leaf, fullNs).None?
    ensures Namespace.StripNamespace(fullNs + ":" + leaf) == leaf
    ensures Namespace.GetNamespace(fullNs + ":" + leaf) == fullNs
  {
    Namespace.NamespaceRoundTrip(fullNs, leaf);
    SettledStarts(fullNs, leaf);
  }

  /** `fullNs:leaf` starts with `fullNs`. */
  lemma SettledStarts(fullNs: string, leaf: string)
    ensures StartsWith(fullNs + ":" + leaf, fullNs)
  {
    assert (fullNs + ":" + leaf)[..|fullNs|] == fullNs;
  }

  /** A character the name lacks is missing from its leaf too. */
  lemma LeafKeepsAbsent(name: string, c: char)
    requires c !in name
    ensures c !in Namespace.StripNamespace(name)
  {
    var leaf := Namespace.StripNamespace(name);
    forall k | 0 <= k < |leaf| ensures leaf[k] != c {
      assert leaf[k] == name[|name| - |leaf| + k];
    }
  }

  // ---------------------------------------------------------------------
  // SingletonComponent.instance
  // ---------------------------------------------------------------------

  /** The `__cls_instance` attributes set so far, by the class that owns
      each, as object identities. */
  type Registry = map<string, nat>

  /** Python's attribute lookup of `cls.__cls_instance`: the first class
      along the method resolution order that has set one. */
  function Owner(reg: Registry, mro: seq<string>): (r: Option<string>)
    ensures r.Some? ==> r.value in mro && r.value in reg
    ensures r.Some? ==> exists i :: 0 <= i < |mro| && mro[i] == r.value &&
                                    forall j :: 0 <= j < i ==> mro[j] !in reg
    ensures r.None? ==> forall k :: 0 <= k < |mro| ==> mro[k] !in reg
    decreases |mro|
  {
    if |mro| == 0 then None
    else if mro[0] in reg then Some(mro[0])
    else
      var r := Owner(reg, mro[1..]);
      assert r.Some? ==> exists i :: 0 <= i < |mro| && mro[i] == r.value &&
                                      forall j :: 0 <= j < i ==> mro[j] !in reg by {
        if r.Some? {
          var i :| 0 <= i < |mro| - 1 && mro[1..][i] == r.value &&
                   forall j :: 0 <= j < i ==> mro[1..][j] !in reg;
          assert mro[i + 1] == r.value;
          assert forall j :: 0 <= j < i + 1 ==> mro[j] !in reg by {
            forall j | 0 <= j < i + 1 ensures mro[j] !in reg {
              if j > 0 { assert mro[j] == mro[1..][j - 1]; }
            }
          }
        }
      }
      r
  }

  /** `SingletonComponent.instance()` called on the class whose method
      resolution order is `mro` (the class first). `created` is the object
      `cls.create()` would build. */
  function Instance(reg: Registry, mro: seq<string>, created: nat): (r: (Registry, nat))
    requires |mro| >= 1
    ensures Owner(reg, mro).None? ==> r.1 == created && r.0 == reg[mro[0] := created]
    ensures Owner(reg, mro).Some? ==> r.0 == reg && r.1 == reg[Owner(reg, mro).value]
    ensures mro[0] in reg ==> r.1 == reg[mro[0]]
  {
    match Owner(reg, mro)
    case None => (reg[mro[0] := created], created)
    case Some(owner) => (reg, reg[owner])
  }

  /** The first call creates the object and every later call returns that
      same object, whatever a new `create()` would have built. */
  lemma InstanceIsStable(reg: Registry, mro: seq<string>, created1: nat, created2: nat)
    requires |mro| >= 1
    ensures var (reg1, a) := Instance(reg, mro, created1);
            var (reg2, b) := Instance(reg1, mro, created2);
            a == b && reg2 == reg1
  {
  }

  /** Classes with unrelated resolution orders get their own objects. */
  lemma InstancePerClass(reg: Registry, mroA: seq<string>, mroB: seq<string>, createdA: nat, createdB: nat)
    requires |mroA| >= 1 && |mroB| >= 1
    requires forall k :: 0 <= k < |mroA| ==> mroA[k] !in reg && mroA[k] !in mroB
    requires forall k :: 0 <= k < |mroB| ==> mroB[k] !in reg
    ensures var (reg1, a) := Instance(reg, mroA, createdA);
            var (reg2, b) := Instance(reg1, mroB, createdB);
            a == createdA && b == createdB
  {
    assert mroA[0] !in mroB;
  }
}
