# panda_auto_rigger: the pure core, in Dafny

The project models the sequential logic of the Maya auto-rigging toolkit
panda_auto_rigger. This is the logic that remains pure once its few Maya reads
become parameters:

- **Naming and namespace strings** (`utils/utils.py`, and the duplicate helpers in `utils/__init__.py`):
  - `camel_to_snake` and `snake_to_camel` with their FK/IK special cases;
  - trailing-number stripping, extraction and maximum;
  - `uncapitalize`;
  - Maya namespace splitting on `:` and `|`;
  - outer-colon normalisation.
- **Ordered enum tables** (`system/component_enum_data.py`, and the legacy `system/component_enum.py`):
  - index/member lookup;
  - the `:`-joined Maya enum string;
  - the side and axis mirror tables;
  - `other_axes` and `scale_vec`;
  - the min/max pass of `create_remap`.
- **The component namespace cache** (`system/base_component.py`):
  - the instance, short and full namespace updates, as a record-to-record step;
  - the per-node rename rule;
  - the per-class singleton registry.
- **Node-wrapper translation logic** (`utils/node_wrapper.py`):
  - `Node.name`;
  - the keyword rewriting `add_attr` does before it calls `cmds.addAttr`;
  - the path parsing of `Container.__getitem__`;
  - the order in which `lock` and `unlock` visit the chain of parent containers.
- **MergeHier** (`component/misc.py`):
  - source validation;
  - the split into primary and extra sources;
  - the index and slot assignment of `__connect_components`;
  - the slot and range settings of `_override_build`.

Modules:

| module | file | models |
|---|---|---|
| `Wrappers` | wrappers.dfy | `Option`, `Result`, and the Python exceptions the code raises |
| `PyStr` | pystr.dfy | Python `str` built-ins on ASCII text: `lower`, `title`, `find`, `replace`, `split`, `join`, `rpartition`, `int` digits, `str(int)` |
| `Utils` | utils.dfy | `utils/utils.py` string helpers |
| `Namespace` | namespace.dfy | `utils.Namespace` |
| `UtilsInit` | utils_init.dfy | `utils/__init__.py` |
| `EnumTable` | enum_table.dfy | `MayaEnumAttr`, generic over the ordered member list |
| `EnumData` | enum_data.dfy | `ComponentType`, `Color`, `CharacterSide`, `AxisEnum` |
| `LegacyEnum` | enum_legacy.dfy | what `system/component_enum.py` adds: `ComponentTypes` |
| `NodeWrapper` | node_wrapper.dfy | `Node.name`, `add_attr`, `Container.__getitem__`, `lock`/`unlock` |
| `BaseComponent` | base_component.dfy | the namespace cache, `rename_node`, `SingletonComponent.instance` |
| `MergeHier` | merge_hier.dfy | the MergeHier checks and wiring plan |

Maya reads become inputs:

- the `hierSide` and `instanceName` values of the input node;
- the parent container's name;
- the published attribute names of a container;
- the parent-container function, modelled as a `Scene` whose depth map makes it acyclic;
- each source component's xform count, container, Hierarchy flag and transform.

Each Maya call is modelled by the value it would be given: the `addAttr` flags, the visited container list, and the set of links.

The legacy enum file repeats the code of `MayaEnumAttr`, `CharacterSide` and `AxisEnum`. One Dafny definition serves both files. The table rows below cite the legacy lines for the members that state those facts.

## Model

| member | source | states |
|---|---|---|
| Utils.CamelToSnakeShape | utils/utils.py:5-13 | The snake_case output holds no upper-case letter and contains neither "f_k" nor "i_k". |
| Utils.CamelToSnakeOnlyMovesUnderscores | utils/utils.py:8-12 | With every "_" deleted, the output equals the lower-cased input with every "_" deleted. Only underscores are added or removed. |
| Utils.CamelToSnakeExample | utils/utils.py:5-13 | "useFK" becomes "use_fk": "F_K" is lowered and then collapsed. |
| Utils.SnakeToCamelNoUnderscore | utils/utils.py:15-24 | The camelCase output contains no "_". |
| Utils.SnakeToCamelIdentity | utils/utils.py:17-24 | An input with no "_", where "fk" and "ik" are absent or first occur at index 0, comes back unchanged. |
| Utils.SnakeToCamelPlainWord | utils/utils.py:15-24 | A key with no "_", no "f" and no "ik" pair is its own camelCase form. This is how add_attr passes such keys through. |
| Utils.SnakeToCamelHead | utils/utils.py:17-23 | The output begins with the text before the first "_" of the rewritten input. It is the rewritten input itself when there is no "_". |
| Utils.SnakeCamelRoundTrip | utils/utils.py:5-24 | Non-empty lower-case words joined by single "_" come back unchanged from snake_to_camel then camel_to_snake, provided "fk" and "ik" occur only at index 0 if at all and "f_k" and "i_k" do not occur. |
| Utils.SnakeToCamelOfWords | utils/utils.py:15-24 | For such words the output is the first word followed by every later word title-cased. |
| Utils.CamelWordsBack | utils/utils.py:8 | camel_to_snake's underscore insertion and lower() turn the first word plus the title-cased later words back into the words joined by "_". |
| Utils.TitleLowerWord | utils/utils.py:23 | title() of a lower-case word upper-cases its first letter and keeps the rest. |
| Utils.SnakeToCamelTitleUndoesFk | utils/utils.py:17-23 | "use_fk" becomes "useFk": title() lower-cases the "K" that the FK rewrite produced. |
| Utils.CaseRewritesOnlyAfterStart | utils/utils.py:17-20 | Each of the fk→FK and ik→IK rewrites changes nothing when its pattern is absent or first occurs at index 0. Otherwise it leaves no lower-case match at all. Either way it only changes letter case. |
| Utils.StripTrailingNumbers | utils/utils.py:47-48 | The result is a prefix of the input that does not end in a digit. The removed suffix is all digits. |
| Utils.StripTrailingNumbersIdempotent | utils/utils.py:47-48 | Stripping twice is stripping once. |
| Utils.GetTrailingNumbers | utils/utils.py:50-55 | There is no number exactly when the string is empty or does not end in a digit. |
| Utils.TrailingDigitsAreStripped | utils/utils.py:47-55 | The input is the stripped stem followed by an all-digit run. |
| Utils.TrailingNumberMatchesStrip | utils/utils.py:47-55 | get_trailing_numbers is the decimal value of exactly the digits strip_trailing_numbers removes. It is None when nothing is removed. |
| Utils.TrailingNumberRoundTrip | utils/utils.py:47-55 | Appending the decimal text of n to a stem that does not end in a digit, then stripping, gives the stem back. Getting the number gives n back. |
| Utils.StripAboveStem | utils/utils.py:47-48 | Stripping a stem followed by any digit run gives the stem. |
| Utils.GetMaxTrailingNumbers | utils/utils.py:57-62 | The result is 0 when no name has trailing digits. Otherwise it is at least every trailing number and equal to one of them. |
| Utils.Uncapitalize | utils/utils.py:94-95 | The empty string raises IndexError. Otherwise only the first character is lower-cased and the length is kept. |
| Utils.UncapitalizeIdempotent | utils/utils.py:94-95 | Uncapitalizing twice is uncapitalizing once. Case-insensitively, the text is unchanged. |
| UtilsInit.CamelToSnake | utils/__init__.py:1-9 | Every call raises NameError, because `re` is never imported in that module. |
| UtilsInit.SnakeToCamel | utils/__init__.py:11-20 | The output has no "_". It begins with the text before the first "_" after the conditional fk/ik rewrite. |
| Namespace.GetNamespace | utils/utils.py:99-106 | The namespace is never empty and never contains "\|". A name without ":" has the root namespace ":". |
| Namespace.GetNamespaceReadsLastElement | utils/utils.py:103-106 | For a name containing ":", the namespace is the text before the last ":" of the last "\|" element, or ":" when that text is empty. |
| Namespace.StripNamespace | utils/utils.py:112-116 | The result is a ":"-free suffix of the name. The character before it is ":". A name without ":" is returned whole. |
| Namespace.NamespaceRoundTrip | utils/utils.py:99-116 | For a non-empty namespace ns and a leaf without ":" or "\|", splitting ns + ":" + leaf gives back ns and leaf. |
| Namespace.NamespaceReconstruction | utils/utils.py:99-116 | A name without "\|" whose text before the last ":" is not empty equals namespace + ":" + stripped name. This includes "::x", whose namespace is ":". |
| Namespace.StripOuterColons | utils/utils.py:127-128 | The result is the input with a run of leading colons and a run of trailing colons removed. It neither starts nor ends with ":". |
| Namespace.StripOuterColonsUnique | utils/utils.py:127-128 | Any other way of cutting colon runs from both ends so that ":" is left at neither end gives the same result. |
| Namespace.StripOuterColonsIdempotent | utils/utils.py:127-128 | Stripping twice is stripping once. |
| Namespace.AddOuterColons | utils/utils.py:131-132 | The result starts and ends with ":". Between those colons is exactly the stripped input. |
| Namespace.OuterColonsRoundTrip | utils/utils.py:127-132 | strip(add(x)) == strip(x), and adding is idempotent. |
| EnumTable.MayaEnumStrSeparators | system/component_enum_data.py:10-23 | When no name holds ":", the enum string has exactly one ":" fewer than there are members. |
| EnumTable.MayaEnumStrRoundTrip | system/component_enum.py:9-22 | Splitting the enum string on ":" gives the member names back in declaration order. |
| EnumTable.Get | system/component_enum_data.py:25-37 | There is a member exactly for indices 0..len-1, and it is the member at that position. Any other index gives None. |
| EnumTable.IndexOf | system/component_enum_data.py:39-53 | There is an index exactly when the member is listed. It is the position of the first occurrence. |
| EnumTable.GetIndexOfInverse | system/component_enum_data.py:25-53 | On a table without repeats, index_of(get(i)) == i for every i in 0..len-1. |
| EnumTable.IndexOfGetInverse | system/component_enum.py:24-52 | get(index_of(e)) == e for every listed member e. |
| EnumTable.IndexMapping | system/component_enum_data.py:292-295 | Every member is paired with its name and with the index of its mirror member. |
| EnumTable.IndexMappingInvolution | system/component_enum_data.py:267-295 | When the mirror map is an involution, following the mirror index twice returns the starting index. |
| EnumTable.CreateRemapBounds | system/component_enum_data.py:78-95 | The min/max pass gives out_min <= every value <= out_max. Both bounds are attained, and both are 0 for no values. |
| EnumTable.RemapBoundsAreMinMax | system/component_enum.py:202-222 | Any pair of attained bounds enclosing every value is exactly the sequence minimum and maximum. |
| EnumData.ComponentTypeIndexIsValue | system/component_enum_data.py:177-189 | index_of(t) is t.value for every component type, and get(t.value) is t. |
| EnumData.ColorRemapBounds | system/component_enum_data.py:210-230 | The Color min/max pass gives -1 and 25. |
| EnumData.SideOppositeInvolution | system/component_enum_data.py:267-290 | opposite(opposite(s)) == s. A side is its own opposite exactly when it is none or mid. |
| EnumData.SideOppositePairs | system/component_enum_data.py:277-290 | right and left, front and back, top and bottom, and in_ and out are opposites. none and mid are fixed. |
| EnumData.SideOppositeFixedPoints | system/component_enum.py:255-283 | For every side, opposite is an involution, and its only fixed points are none and mid. |
| EnumData.SideOppositeMapping | system/component_enum_data.py:292-295 | Each of the ten side names maps to an index in 0..9. Following the mapping twice returns the starting index. |
| EnumData.SideMayaEnumStr | system/component_enum.py:290-294 | The side enum string contains no "_". |
| EnumData.SideMayaEnumStrValue | system/component_enum_data.py:297-301 | The side enum string is the ":"-join of the names with "_" deleted ("in_" becomes "in"). It splits back into those ten words and has nine separators. |
| EnumData.AxisIndexIsIndexOf | system/component_enum_data.py:39-53 | The axis table has no repeats, and index_of and get agree with each axis's declaration position. |
| EnumData.AxisOppositeInvolution | system/component_enum_data.py:354-373 | The axis opposite is an involution without fixed points. It negates the vector, and index_of(opposite(a)) == (index_of(a)+3) % 6. |
| EnumData.OtherAxisIndicesShape | system/component_enum_data.py:318-335 | For an index in 0..5, the two other indices are ascending, differ from it, and lie in its sign group (0-2 or 3-5). |
| EnumData.OtherAxesShape | system/component_enum_data.py:318-335 | other_axes gives two distinct axes, both different from the input, of the input's sign group, in ascending index order. |
| EnumData.OtherAxesComplement | system/component_enum.py:309-326 | The input and its two other axes make up the input's whole sign group. |
| EnumData.ScaleVec | system/component_enum_data.py:337-352 | Every zero component becomes 1, and every non-zero component is kept. The member's own vector is not changed. |
| EnumData.AxisOppositeMapping | system/component_enum_data.py:375-378 | The axis mapping pairs the k-th axis name with index (k+3) % 6. |
| LegacyEnum.ValuesAreIndices | system/component_enum.py:172-182 | The legacy ComponentTypes values are consecutive from 0 in declaration order. |
| LegacyEnum.ComponentTypesIndexIsValue | system/component_enum.py:172-182 | index_of(t) == t.value for every legacy component type, and get(t.value) == t. |
| LegacyEnum.ComponentTypesRemapBounds | system/component_enum.py:75-95 | The min/max pass over the legacy ComponentTypes values gives 0 and 8. |
| LegacyEnum.AxesOppositeInvolution | system/component_enum.py:345-366 | The legacy axis opposite is an involution without fixed points. |
| NodeWrapper.NodeName | utils/node_wrapper.py:60-64 | The name is the "\|"-free suffix of the full name after its last "\|". A full name without "\|" is its own name. |
| NodeWrapper.NodeNameOfPath | utils/node_wrapper.py:60-64 | The name is the last element of the full name split on "\|". For parent + "\|" + leaf it is the leaf. |
| NodeWrapper.DictSet | utils/node_wrapper.py:100-104 | Assigning a key sets its value and leaves every other key alone. An existing key keeps its place and a new key goes last. |
| NodeWrapper.DictPop | utils/node_wrapper.py:94-96 | Popping a key removes it and leaves every other key alone. |
| NodeWrapper.PrepareKwargs | utils/node_wrapper.py:84-104 | After the rewriting, neither "type" nor "longName" is a key. |
| NodeWrapper.PrepareKwargsParent | utils/node_wrapper.py:85-89 | A "parent" value becomes text: an Attr's attr_name, or str(value). An absent "parent" stays absent. |
| NodeWrapper.PrepareKwargsType | utils/node_wrapper.py:91-104 | A type among string/nurbsCurve/nurbsSurface/mesh/matrix becomes dataType. A type among compound/message/double/long/bool/enum/double3/double2 becomes attributeType. Any other type sets neither. |
| NodeWrapper.TypeListsDisjoint | utils/node_wrapper.py:99-104 | No type is in both lists, so the elif never shadows a type. |
| NodeWrapper.PrepareKwargsOthers | utils/node_wrapper.py:84-104 | Every key other than the five handled ones keeps its value. |
| NodeWrapper.PrepareKwargsKeys | utils/node_wrapper.py:84-104 | Every key after the rewriting came from the caller, or is dataType or attributeType. |
| NodeWrapper.ConvertKeys | utils/node_wrapper.py:106-108 | The converted dict maps each camelCase name to the value of the last caller key that converts to it. |
| NodeWrapper.LastWithSingle | utils/node_wrapper.py:106-108 | When exactly one key converts to a name, the converted dict holds that key's value under the name. |
| NodeWrapper.LastWithNone | utils/node_wrapper.py:106-108 | When no key converts to a name, the converted dict lacks the name. |
| NodeWrapper.PlainKeyIsCamel | utils/node_wrapper.py:98-108 | "dataType" and "attributeType" survive snake_to_camel unchanged. |
| NodeWrapper.DataTypeIsCamel | utils/node_wrapper.py:98-108 | Both flag names are fixed points of snake_to_camel. |
| NodeWrapper.CallAddAttr | utils/node_wrapper.py:106-110 | The addAttr call gets the node, the long name, and the converted flags. It raises TypeError exactly when a converted key collides with longName. |
| NodeWrapper.AddAttr | utils/node_wrapper.py:84-110 | add_attr either raises TypeError or calls addAttr on the node with the given long name and flags that hold no longName. |
| NodeWrapper.PreparedNoLongName | utils/node_wrapper.py:95-108 | When no caller key converts to "longName", no flag collides with the long_name argument. |
| NodeWrapper.AddAttrDataType | utils/node_wrapper.py:98-110 | A data type reaches addAttr as the dataType flag. |
| NodeWrapper.AddAttrAttributeType | utils/node_wrapper.py:102-110 | An attribute type reaches addAttr as the attributeType flag. |
| NodeWrapper.AddAttrOtherType | utils/node_wrapper.py:91-110 | Any other type reaches addAttr as neither flag. |
| NodeWrapper.ParseInt | utils/node_wrapper.py:451 | int() accepts exactly the text that, with surrounding whitespace removed, is an optional sign followed by at least one digit. It gives the decimal value of a digit string. |
| NodeWrapper.SignedDigits | utils/node_wrapper.py:451 | Trimmed text is read iff it is an optional "+" or "-" followed by digits; "-" negates the value and "+" keeps it. |
| NodeWrapper.ParseIntRejectsMalformed | utils/node_wrapper.py:451 | "1a", "1 2" and "--1" are all rejected. |
| NodeWrapper.ParseIntMinus | utils/node_wrapper.py:451 | int() reads "-" followed by a digit run as minus the value of the digits. |
| NodeWrapper.ParseIntOfDigits | utils/node_wrapper.py:449-451 | An index written as digits, with or without a leading "-", contains no "]". It survives the split on "]", and int() reads it back as its value. |
| NodeWrapper.ContainerGet | utils/node_wrapper.py:442-459 | A published name is returned as such. Errors are ValueErrors and need a "[". A name with neither "[" nor "." that is unpublished falls back to the node lookup. Every attribute reached through the container starts at a published name. |
| NodeWrapper.BracketSplit | utils/node_wrapper.py:448-449 | The two splits cut p[i]rest into p, i and rest. |
| NodeWrapper.ContainerGetElement | utils/node_wrapper.py:446-454 | For a published prefix p, "p[i]rest" is element int(i) of p, followed by child rest when rest is not empty. This holds even when rest contains ".". |
| NodeWrapper.ContainerGetBadIndex | utils/node_wrapper.py:446-451 | For a published prefix p, "p[i]rest" raises ValueError when int() refuses i, whatever rest is. |
| NodeWrapper.ContainerGetChild | utils/node_wrapper.py:455-458 | For a published prefix p and no "[", "p.rest" is child rest of p. |
| NodeWrapper.ContainerGetFallback | utils/node_wrapper.py:446-459 | With the name and its prefix unpublished, the lookup falls back to the plain node attribute. |
| NodeWrapper.Chain | utils/node_wrapper.py:315-320 | The container list starts with the container itself. |
| NodeWrapper.ChainLinks | utils/node_wrapper.py:316-320 | Each container in the list is followed by its parent container. The last one has no parent. |
| NodeWrapper.ChainDistinct | utils/node_wrapper.py:316-320 | No container appears twice in the list. |
| NodeWrapper.ChainStep | utils/node_wrapper.py:318-320 | One loop step: the list from a container is the container, then the list from its parent. |
| NodeWrapper.CollectChain | utils/node_wrapper.py:315-320 | The while loop collects exactly the chain from the container up to the outermost one. |
| NodeWrapper.Reverse | utils/node_wrapper.py:338 | `[::-1]` puts element len-1-i at position i. |
| NodeWrapper.Lock | utils/node_wrapper.py:314-325 | With propagation, lock visits the chain innermost first. Without it, lock visits only the container itself. |
| NodeWrapper.Unlock | utils/node_wrapper.py:327-340 | With propagation, unlock visits the same chain outermost first. Without it, unlock visits only the container itself. |
| NodeWrapper.UnlockOrder | utils/node_wrapper.py:327-340 | unlock starts at a container without a parent and ends at the container itself. Each container it visits is the parent of the next. |
| NodeWrapper.ReverseDistinct | utils/node_wrapper.py:338 | Reversing a list without repeats keeps it without repeats. |
| NodeWrapper.ChainVisitedOnce | utils/node_wrapper.py:314-340 | Both lock and unlock visit each container at most once. |
| BaseComponent.SidePrefix | system/base_component.py:210-211 | A side index in range gives that side's value followed by "_". Any other index makes `.value` on None raise AttributeError. |
| BaseComponent.Remember | system/base_component.py:207-217 | After the side and name are remembered, neither counts as changed. Nothing else in the cache is touched. |
| BaseComponent.UpdateInstanceAsWritten | system/base_component.py:196-223 | Without an input node the cache is unchanged. Only the instance fields can change. An error is an AttributeError from a changed, out-of-range side. |
| BaseComponent.InstanceAsWrittenBothChanged | system/base_component.py:204-223 | When the side and the name both changed, the side is in range and the name is non-empty, the instance namespace becomes the side value + "_" + the name. |
| BaseComponent.InstanceAsWrittenUnchanged | system/base_component.py:207-223 | With the side and the name unchanged, the cache is left as it was. |
| BaseComponent.InstanceAsWrittenDropsSide | system/base_component.py:204-223 | Side right with name "arm" gives "R_arm". Renaming to "leg" with the same side then gives "leg": the side prefix is lost. |
| BaseComponent.InstanceOf | system/base_component.py:204-220 | Without a side, the instance namespace is the name, or "" for none. A side out of range raises AttributeError. |
| BaseComponent.UpdateInstance | system/base_component.py:196-223 | Without an input node, or with nothing changed, the cache is unchanged. Afterwards the node's side and name count as remembered. |
| BaseComponent.InstanceKeepsBoth | system/base_component.py:204-223 | Whenever the side or the name changed, the instance namespace is the side value + "_" + the name. |
| BaseComponent.InstanceAgreesWhenBothChange | system/base_component.py:204-223 | When both the side and the name change, the corrected update agrees with the code as written. |
| BaseComponent.UpdateShort | system/base_component.py:178-194 | The short-namespace update touches nothing but short_namespace. |
| BaseComponent.ShortWithInstance | system/base_component.py:181-192 | With instance namespace I and class namespace C, both non-empty, short_namespace starts with I + "__". It is set to I + "__" + C when it did not already start so, and is otherwise left alone. |
| BaseComponent.ShortWithoutInstance | system/base_component.py:187-192 | With an empty instance namespace and a non-empty class namespace C, short_namespace equals C. |
| BaseComponent.UpdateFull | system/base_component.py:155-177 | The full-namespace update touches nothing but full_namespace. |
| BaseComponent.FullAtTopLevel | system/base_component.py:164-177 | With no parent container, full_namespace becomes ":" + short_namespace, unless the cached value already holds short_namespace at index 1. From an empty or ":"-led cache, it starts with ":" + short_namespace. |
| BaseComponent.FullInParent | system/base_component.py:167-177 | With a parent container, full_namespace starts with the parent's namespace after the update. |
| BaseComponent.Refresh | system/base_component.py:128-154 | Reading full_namespace runs the three updates, with the instance update as written. It fails exactly when that update fails, only with AttributeError, and keeps its instance namespace. Under a parent, the result starts with the parent's namespace. |
| BaseComponent.RefreshIntended | system/base_component.py:128-154 | The same read with the intended instance update, with the same error and parent guarantees. |
| BaseComponent.RefreshTopLevel | system/base_component.py:155-194 | At the top level, a short namespace not yet led by "I__" becomes "I__C". A full namespace not holding it right after its first character becomes ":" + short. |
| BaseComponent.RefreshAfterRename | system/base_component.py:128-223 | A top-level rename that keeps the side gives instance "leg", short "leg__C" and full ":leg__C" as written, so ":R_arm__hier" becomes ":leg__hier". |
| BaseComponent.RefreshIntendedAfterRename | system/base_component.py:128-223 | With the intended update the same rename gives "<side>_leg", so ":R_arm__hier" becomes ":R_leg__hier". |
| BaseComponent.RenameNode | system/base_component.py:381-384 | A node whose name starts with the full namespace is left alone. Otherwise it is renamed to full namespace + ":" + the text after its last ":". |
| BaseComponent.RenameNodeIdempotent | system/base_component.py:381-384 | A renamed node is not renamed again. Its leaf is kept, and its namespace is the full namespace. |
| BaseComponent.Owner | system/base_component.py:937-946 | The class attribute is found at the first class along the MRO that has already set it: no earlier class in the MRO has one. Otherwise no class in the MRO has it. |
| BaseComponent.Instance | system/base_component.py:939-950 | On the first call for a class a new component is created and stored. Later calls return the stored one and store nothing. |
| BaseComponent.InstanceIsStable | system/base_component.py:939-950 | Two calls in a row return the same component, and the second leaves the registry unchanged. |
| BaseComponent.InstancePerClass | system/base_component.py:939-950 | Two unrelated classes each get their own new component. |
| MergeHier.Ancestors | component/misc.py:124-128 | The ancestor list is the container chain from the merge container's parent upwards. It is empty at top level. |
| MergeHier.SourceProblem | component/misc.py:129-136 | A source fails exactly when it is unacceptable. The length check comes first, then ancestry, then the Hierarchy type. |
| MergeHier.CheckEach | component/misc.py:129-136 | No error exactly when every source passes. An error is the problem of a source that every earlier source passed. |
| MergeHier.CheckSources | component/misc.py:110-136 | The empty list passes. Otherwise the check passes exactly when every source has the first source's xform count, is not an ancestor, and is a Hierarchy. |
| MergeHier.CheckReportsFirstProblem | component/misc.py:129-136 | The raised error is that of the first failing source. |
| MergeHier.SourceLinks | component/misc.py:143-151 | The primary's links are its hierarchy parent, and its visibility exactly when it has a transform. |
| MergeHier.XformLinks | component/misc.py:154-157 | Every output xform of a source, and nothing else, is linked into that source's slot. |
| MergeHier.RestLinks | component/misc.py:152-161 | The k-th remaining source fills slot k and index k+1, and links exactly its own matrices, parent and visibility. |
| MergeHier.ConnectAsWritten | component/misc.py:143-151 | Without a primary source, AttributeError is raised. With one, the primary's links come first. |
| MergeHier.Connect | component/misc.py:137-161 | The corrected connect agrees with the code whenever there is a primary source. Without one it links only the rest. |
| MergeHier.ConnectSlots | component/misc.py:143-161 | The primary has index 0. The k-th remaining source has slot k and index k+1. No other link is made. |
| MergeHier.SplitSources | component/misc.py:99-106 | The first source is the primary, and the rest are the remaining sources. No sources means no primary and no rest. |
| MergeHier.PreBuild | component/misc.py:97-107 | A failed check raises its error. Otherwise the links are those of the primary and the rest. No sources build nothing. |
| MergeHier.PreBuildAsWritten | component/misc.py:97-107 | With at least one source it agrees with the corrected pre-build. |
| MergeHier.EmptySourcesFailAsWritten | component/misc.py:143-151 | With no sources the code raises AttributeError, though the check accepts the empty list. The corrected pre-build builds nothing. |
| MergeHier.OverrideBuild | component/misc.py:163-229 | With no hierarchy parent nothing is built. With exactly one, ZeroDivisionError is raised. Otherwise the hierBlend maximum is num_hiers-1 and slot h remaps [h, h+1]. |
| MergeHier.ParentBlendInputs | component/misc.py:171-179 | Parent 0 feeds inputMatrix, and parent h >= 1 feeds target h-1. |
| MergeHier.WeightRangesCoverBlend | component/misc.py:211-229 | Every hierBlend value from 0 to its maximum falls in the input range of some weight remap. |

## Left out

- Every `maya.cmds` and OpenMaya call is replaced by the inputs it would return or the arguments it would be given. Undo handling is left out as well.
- Node-graph wiring in the other component files is left out.
- Floating-point work is left out: create_remap's normalised values, the visibility remaps, and `1/(num_hiers-1)`. Only its ZeroDivisionError is kept.
- Python regular expressions are modelled only for newline-free ASCII text. `$` before a trailing newline is not modelled, and neither is `lower()`/`title()` beyond ASCII.
- Utils.GetMaxTrailingNumbers: returns the exact integer maximum, while the source returns `float(...)` of it. Python's float rounds values above 2^53 (so "a9007199254740993" gives 9007199254740992.0) and raises OverflowError above about 1.8e308; neither the rounding nor that error is modelled, as floating point is left out.
- Utils.GetTrailingNumbers: returns None where the source returns "".
- NodeWrapper.ParseInt: accepts the ASCII whitespace `str.isspace()` knows (including 0x1C to 0x1F), a sign and ASCII digits only. Python's `int()` also allows "_" between digits, non-ASCII digits and non-ASCII spaces.
- NodeWrapper.ContainerGet: the published map's values are not modelled. The result names the path taken (published name, element, child, plain node attribute), not Maya's attribute object.
- NodeWrapper.Lock: the `lockNode` flags are not modelled, only the order of the containers visited.
- BaseComponent.UpdateInstance: the cache state left behind when the side lookup raises is not modelled. The code has already stored the new side at that point.
- BaseComponent.UpdateShort: a class namespace of None is not modelled; only strings are.
- BaseComponent.Instance: the created component is a parameter, not a construction.
- The base-class call at component/misc.py:100 passes keywords that `Component._pre_build` (system/base_component.py:284) does not accept. The model assumes that base step succeeds and models only the MergeHier-specific part.
- `utils.Namespace.get_parent_namespace` lacks `@classmethod` and is not part of this model. So are `equal_namespace` and `get_max_trailing_number`, which do not exist in utils/utils.py.
- EnumTable.CreateRemapBounds: enum values are integers only. The test at system/component_enum_data.py:83 and system/component_enum.py:82 calls `cmds.error` when the first value is a float (the opposite of what its "does not have numeric values" message describes); float values and that error are not modelled.
- EnumData.ScaleVec: axis vectors hold the integers that their float components equal, since floating point is left out.
- MergeHier.OverrideBuild: the loop at component/misc.py:224-226 indexes `blend_mats` by the loc-matrix index of each hierarchy slot, which raises IndexError when a slot has more loc matrices than there are input xforms. The blend-matrix wiring and that error are not modelled.
- `get_enum_dict`, the other `create_remap` steps, `class_type_to_str` and `string_to_class` are reflection or floating point and are left out.

## Findings

| source | as written | input that shows it | evidently intended | confidence | as-written member | corrected member |
|---|---|---|---|---|---|---|
| system/base_component.py:204-223 | The side prefix is built only when the side changed, and the name only when the name changed, so a change of one alone drops the other. | Side right with name "arm" gives "R_arm". Then name "leg" with the same side gives "leg" instead of "R_leg", so a top-level component of class namespace "hier" goes from ":R_arm__hier" to ":leg__hier". | The instance namespace is always side prefix + name. | not executed; high | BaseComponent.InstanceAsWrittenDropsSide, BaseComponent.RefreshAfterRename | BaseComponent.InstanceKeepsBoth, BaseComponent.RefreshIntendedAfterRename |
| component/misc.py:143-151 | With no source components the check accepts the empty list. Then `__connect_components` reads `transform_node` of None. | `source_components=[]` | An empty source list builds nothing. | not executed; medium (the base call at line 100 is assumed to succeed) | MergeHier.EmptySourcesFailAsWritten | MergeHier.PreBuild |
