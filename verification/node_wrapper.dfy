/** The translation logic of `utils/node_wrapper.py` that runs before a
    Maya command: the short name of a node, the keyword rewriting of
    `Node.add_attr`, the published-attribute lookup of
    `Container.__getitem__`, and the order in which `Container.lock` /
    `unlock` visit the chain of enclosing containers. What Maya reports
    (full names, published attributes, parent containers) is an input. */
module NodeWrapper {
  import opened Wrappers
  import opened PyStr
  import Utils

  // ---------------------------------------------------------------------
  // Node.name
  // ---------------------------------------------------------------------

  /** `Node.name`: the last element of the DAG path. */
  function NodeName(fullName: string): (r: string)
    ensures '|' !in r
    ensures |r| <= |fullName| && fullName[|fullName| - |r|..] == r
    ensures '|' !in fullName ==> r == fullName
    ensures |r| < |fullName| ==> fullName[|fullName| - |r| - 1] == '|'
  {
    if '|' in fullName then AfterLast(fullName, '|') else fullName
  }

  /** The short name is the last `|`-separated element, and a path built
      from a parent path and a short name gives that short name back. */
  lemma NodeNameOfPath(fullName: string, parentPath: string, leaf: string)
    ensures var parts := Split(fullName, '|'); NodeName(fullName) == parts[|parts| - 1]
    ensures '|' !in leaf ==> NodeName(parentPath + "|" + leaf) == leaf
  {
    SplitLastIsAfterLast(fullName, '|');
    if '|' !in leaf {
      RpartitionOfJoin(parentPath, '|', leaf);
    }
  }

  // ---------------------------------------------------------------------
  // Node.add_attr
  // ---------------------------------------------------------------------

  /** A keyword argument value, as far as `add_attr` looks at it. */
  datatype KwValue =
    | Text(text: string)          // a Python str
    | AttrArg(attrName: string)   // an `Attr` wrapper
    | OtherArg(repr: string)      // anything else, with its `str()`

  /** A Python dict of keyword arguments: its keys in insertion order and
      the value of each key. */
  datatype Kwargs = Kwargs(keys: seq<string>, values: map<string, KwValue>)

  predicate DistinctSeq(keys: seq<string>) {
    forall i, j :: 0 <= i < j < |keys| ==> keys[i] != keys[j]
  }

  ghost predicate ValidKwargs(kw: Kwargs) {
    DistinctSeq(kw.keys) && forall k :: k in kw.values <==> k in kw.keys
  }

  /** `kw.get(key)` */
  function Lookup(kw: Kwargs, key: string): Option<KwValue> {
    if key in kw.values then Some(kw.values[key]) else None
  }

  /** `kw[key] = v`: an existing key keeps its place, a new one goes last. */
  function DictSet(kw: Kwargs, key: string, v: KwValue): (r: Kwargs)
    requires ValidKwargs(kw)
    ensures ValidKwargs(r)
    ensures Lookup(r, key) == Some(v)
    ensures forall k :: k != key ==> Lookup(r, k) == Lookup(kw, k)
    ensures key in kw.keys ==> r.keys == kw.keys
    ensures key !in kw.keys ==> r.keys == kw.keys + [key]
  {
    var keys := if key in kw.keys then kw.keys else kw.keys + [key];
    Kwargs(keys, kw.values[key := v])
  }

  function RemoveKey(keys: seq<string>, key: string): (r: seq<string>)
    ensures key !in r
    ensures forall k :: k != key ==> (k in r <==> k in keys)
    ensures DistinctSeq(keys) ==> DistinctSeq(r)
    decreases |keys|
  {
    if |keys| == 0 then []
    else
      var rest := RemoveKey(keys[1..], key);
      assert DistinctSeq(keys) ==> keys[0] !in keys[1..];
      if keys[0] == key then rest else [keys[0]] + rest
  }

  /** `kw.pop(key)` (a no-op when the key is absent). */
  function DictPop(kw: Kwargs, key: string): (r: Kwargs)
    requires ValidKwargs(kw)
    ensures ValidKwargs(r)
    ensures Lookup(r, key).None?
    ensures forall k :: k != key ==> Lookup(r, k) == Lookup(kw, k)
  {
    Kwargs(RemoveKey(kw.keys, key), kw.values - {key})
  }

  /** The Maya type names `add_attr` passes as `dataType`. */
  const DataTypes: seq<string> := ["string", "nurbsCurve", "nurbsSurface", "mesh", "matrix"]

  /** The Maya type names `add_attr` passes as `attributeType`. */
  const AttributeTypes: seq<string> :=
    ["compound", "message", "double", "long", "bool", "enum", "double3", "double2"]

  /** `str()` of a "parent" argument, with an `Attr` giving its attribute
      name. */
  function ParentText(v: KwValue): KwValue {
    match v
    case Text(s) => Text(s)
    case AttrArg(n) => Text(n)
    case OtherArg(repr) => Text(repr)
  }

  /** Lines 85-104 of `add_attr`: "parent" is turned into text, "type" and
      "longName" are popped, and the popped type becomes a `dataType` or
      `attributeType` entry. */
  function PrepareKwargs(kw: Kwargs): (r: Kwargs)
    requires ValidKwargs(kw)
    ensures ValidKwargs(r)
    ensures Lookup(r, "type").None? && Lookup(r, "longName").None?
  {
    var withParent := ParentAsText(kw);
    SetTypeFlag(PopTypeAndName(withParent), Lookup(withParent, "type"))
  }

  /** Lines 85-86: a "parent" argument is replaced by its text. */
  function ParentAsText(kw: Kwargs): (r: Kwargs)
    requires ValidKwargs(kw)
    ensures ValidKwargs(r)
    ensures Lookup(r, "parent") == (match Lookup(kw, "parent")
                                    case None => None
                                    case Some(v) => Some(ParentText(v)))
    ensures forall k :: k != "parent" ==> Lookup(r, k) == Lookup(kw, k)
  {
    match Lookup(kw, "parent")
    case None => kw
    case Some(v) => DictSet(kw, "parent", ParentText(v))
  }

  /** Lines 88-89: "type" and "longName" are popped. */
  function PopTypeAndName(kw: Kwargs): (r: Kwargs)
    requires ValidKwargs(kw)
    ensures ValidKwargs(r)
    ensures Lookup(r, "type").None? && Lookup(r, "longName").None?
    ensures forall k :: k != "type" && k != "longName" ==> Lookup(r, k) == Lookup(kw, k)
  {
    DictPop(DictPop(kw, "type"), "longName")
  }

  /** Lines 90-104: the popped type, when it is a known name, becomes a
      `dataType` or an `attributeType` entry. */
  function SetTypeFlag(popped: Kwargs, attrType: Option<KwValue>): (r: Kwargs)
    requires ValidKwargs(popped)
    ensures ValidKwargs(r)
    ensures forall k :: k != "dataType" && k != "attributeType" ==> Lookup(r, k) == Lookup(popped, k)
  {
    match attrType
    case Some(Text(t)) =>
      if t in DataTypes then DictSet(popped, "dataType", Text(t))
      else if t in AttributeTypes then DictSet(popped, "attributeType", Text(t))
      else popped
    case _ => popped
  }

  /** No type name is in both lists. */
  lemma TypeListsDisjoint(t: string)
    requires t in AttributeTypes
    ensures t !in DataTypes
  {
    var i :| 0 <= i < |AttributeTypes| && AttributeTypes[i] == t;
    assert i in {0, 1, 2, 3, 4, 5, 6, 7};
  }

  /** "parent" keeps its place and holds the text of the argument. */
  lemma PrepareKwargsParent(kw: Kwargs)
    requires ValidKwargs(kw)
    ensures Lookup(PrepareKwargs(kw), "parent") ==
              (match Lookup(kw, "parent")
               case None => None
               case Some(v) => Some(ParentText(v)))
  {
    var w := ParentAsText(kw);
    var p := PopTypeAndName(w);
    assert Lookup(p, "parent") == Lookup(w, "parent");
  }

  /** Every key other than the five `add_attr` handles passes through
      unchanged. */
  lemma PrepareKwargsOthers(kw: Kwargs, k: string)
    requires ValidKwargs(kw)
    requires k != "type" && k != "longName" && k != "parent" && k != "dataType" && k != "attributeType"
    ensures Lookup(PrepareKwargs(kw), k) == Lookup(kw, k)
  {
    var w := ParentAsText(kw);
    var p := PopTypeAndName(w);
    assert Lookup(p, k) == Lookup(w, k) == Lookup(kw, k);
  }

  /** A type from the data-type list sets `dataType`; one from the
      attribute-type list sets `attributeType`; any other value sets
      neither. */
  lemma PrepareKwargsType(kw: Kwargs)
    requires ValidKwargs(kw)
    ensures var r := PrepareKwargs(kw);
            match Lookup(kw, "type")
            case Some(Text(t)) =>
              if t in DataTypes then
                Lookup(r, "dataType") == Some(Text(t)) && Lookup(r, "attributeType") == Lookup(kw, "attributeType")
              else if t in AttributeTypes then
                Lookup(r, "attributeType") == Some(Text(t)) && Lookup(r, "dataType") == Lookup(kw, "dataType")
              else
                Lookup(r, "dataType") == Lookup(kw, "dataType") && Lookup(r, "attributeType") == Lookup(kw, "attributeType")
            case _ =>
              Lookup(r, "dataType") == Lookup(kw, "dataType") && Lookup(r, "attributeType") == Lookup(kw, "attributeType")
  {
    var w := ParentAsText(kw);
    var p := PopTypeAndName(w);
    assert Lookup(w, "type") == Lookup(kw, "type");
    assert Lookup(p, "dataType") == Lookup(kw, "dataType");
    assert Lookup(p, "attributeType") == Lookup(kw, "attributeType");
    match Lookup(kw, "type")
    case Some(Text(t)) =>
      if t in AttributeTypes {
        TypeListsDisjoint(t);
      }
    case _ =>
  }

  /** The value a dict leaves under `name` once every key has gone through
      `snake_to_camel`: the last key, in insertion order, whose converted
      form is `name` wins. */
  function LastWith(keys: seq<string>, values: map<string, KwValue>, name: string): Option<KwValue>
    requires forall k :: k in keys ==> k in values
    decreases |keys|
  {
    if |keys| == 0 then None
    else if Utils.SnakeToCamel(keys[|keys| - 1]) == name then Some(values[keys[|keys| - 1]])
    else LastWith(keys[..|keys| - 1], values, name)
  }

  /** The loop at lines 106-108 building `new_kwargs`, over the first `n`
      keys. */
  function ConvertKeys(keys: seq<string>, values: map<string, KwValue>): (r: Kwargs)
    requires forall k :: k in keys ==> k in values
    ensures ValidKwargs(r)
    ensures forall name :: Lookup(r, name) == LastWith(keys, values, name)
    decreases |keys|
  {
    if |keys| == 0 then Kwargs([], map[])
    else
      var init := keys[..|keys| - 1];
      var last := keys[|keys| - 1];
      var acc := ConvertKeys(init, values);
      DictSet(acc, Utils.SnakeToCamel(last), values[last])
  }

  /** The `cmds.addAttr` call `add_attr` makes. */
  datatype AddAttrCall = AddAttrCall(node: string, longName: string, flags: Kwargs)

  /** The call `add_attr` makes with its prepared keyword arguments. A
      converted key "longName" clashes with the explicit `longName=`
      argument of the call, which Python rejects with a TypeError. */
  function CallAddAttr(node: string, longName: string, p: Kwargs): (r: Result<AddAttrCall, PyException>)
    requires ValidKwargs(p)
    ensures r.Failure? <==> LastWith(p.keys, p.values, "longName").Some?
    ensures r.Failure? ==> r.error == TypeError
    ensures r.Success? ==> r.value.node == node && r.value.longName == longName && ValidKwargs(r.value.flags)
    ensures r.Success? ==> forall name :: Lookup(r.value.flags, name) == LastWith(p.keys, p.values, name)
  {
    var flags := ConvertKeys(p.keys, p.values);
    if "longName" in flags.values then Failure(TypeError)
    else Success(AddAttrCall(node, longName, flags))
  }

  /** `Node.add_attr`. */
  function AddAttr(node: string, longName: string, kw: Kwargs): (r: Result<AddAttrCall, PyException>)
    requires ValidKwargs(kw)
    ensures r.Failure? ==> r.error == TypeError
    ensures r.Success? ==> r.value.node == node && r.value.longName == longName && ValidKwargs(r.value.flags)
    ensures r.Success? ==> Lookup(r.value.flags, "longName").None?
  {
    CallAddAttr(node, longName, PrepareKwargs(kw))
  }

  /** When one key alone converts to `name`, its value is what the
      converted dict holds. */
  lemma {:induction false} LastWithSingle(keys: seq<string>, values: map<string, KwValue>, name: string, i: nat)
    requires forall k :: k in keys ==> k in values
    requires i < |keys| && Utils.SnakeToCamel(keys[i]) == name
    requires forall j :: 0 <= j < |keys| && j != i ==> Utils.SnakeToCamel(keys[j]) != name
    ensures LastWith(keys, values, name) == Some(values[keys[i]])
    decreases |keys|
  {
    if i < |keys| - 1 {
      LastWithSingle(keys[..|keys| - 1], values, name, i);
    }
  }

  lemma {:induction false} LastWithNone(keys: seq<string>, values: map<string, KwValue>, name: string)
    requires forall k :: k in keys ==> k in values
    requires forall j :: 0 <= j < |keys| ==> Utils.SnakeToCamel(keys[j]) != name
    ensures LastWith(keys, values, name).None?
    decreases |keys|
  {
    if |keys| > 0 {
      LastWithNone(keys[..|keys| - 1], values, name);
    }
  }

  /** "dataType" and "attributeType" are already camelCase, so converting
      the keys keeps them. */
  lemma PlainKeyIsCamel(s: string)
    requires s == "dataType" || s == "attributeType"
    ensures Utils.SnakeToCamel(s) == s
  {
    forall j | 0 <= j < |s| ensures s[j] != '_' && s[j] != 'f' && (s[j] == 'i' && j < |s| - 1 ==> s[j + 1] != 'k') {
      assert j in {0, 1, 2, 3, 4, 5, 6, 7, 8, 9, 10, 11, 12};
    }
    Utils.SnakeToCamelPlainWord(s);
  }

  lemma DataTypeIsCamel()
    ensures Utils.SnakeToCamel("dataType") == "dataType"
    ensures Utils.SnakeToCamel("attributeType") == "attributeType"
  {
    PlainKeyIsCamel("dataType");
    PlainKeyIsCamel("attributeType");
  }

  /** The prepared arguments hold only keys of the input and the two type
      flags. */
  lemma PrepareKwargsKeys(kw: Kwargs, k: string)
    requires ValidKwargs(kw)
    requires k in PrepareKwargs(kw).keys
    ensures k in kw.keys || k == "dataType" || k == "attributeType"
  {
    var r := PrepareKwargs(kw);
    assert Lookup(r, k).Some?;
    if k == "parent" {
      PrepareKwargsParent(kw);
    } else if k != "dataType" && k != "attributeType" {
      assert k != "type" && k != "longName";
      PrepareKwargsOthers(kw, k);
    }
  }

  /** No prepared key converts to "longName" when no input key does. */
  lemma PreparedNoLongName(kw: Kwargs)
    requires ValidKwargs(kw)
    requires forall k :: k in kw.keys ==> Utils.SnakeToCamel(k) != "longName"
    ensures var p := PrepareKwargs(kw);
            LastWith(p.keys, p.values, "longName").None?
  {
    var p := PrepareKwargs(kw);
    forall j | 0 <= j < |p.keys| ensures Utils.SnakeToCamel(p.keys[j]) != "longName" {
      PrepareKwargsKeys(kw, p.keys[j]);
      if p.keys[j] == "dataType" {
        PlainKeyIsCamel("dataType");
      } else if p.keys[j] == "attributeType" {
        PlainKeyIsCamel("attributeType");
      }
    }
    LastWithNone(p.keys, p.values, "longName");
  }

  /** A data type such as "string" reaches `cmds.addAttr` as `dataType`,
      unless another argument's converted name overrides it. */
  lemma AddAttrDataType(node: string, longName: string, kw: Kwargs, t: string)
    requires ValidKwargs(kw)
    requires Lookup(kw, "type") == Some(Text(t)) && t in DataTypes
    requires forall k :: k in kw.keys ==> Utils.SnakeToCamel(k) != "longName"
    requires forall k :: k in kw.keys && k != "dataType" ==> Utils.SnakeToCamel(k) != "dataType"
    ensures AddAttr(node, longName, kw).Success?
    ensures Lookup(AddAttr(node, longName, kw).value.flags, "dataType") == Some(Text(t))
  {
    var p := PrepareKwargs(kw);
    PrepareKwargsType(kw);
    PreparedNoLongName(kw);
    assert Lookup(p, "dataType") == Some(Text(t));
    var i :| 0 <= i < |p.keys| && p.keys[i] == "dataType";
    PlainKeyIsCamel("dataType");
    forall j | 0 <= j < |p.keys| && j != i ensures Utils.SnakeToCamel(p.keys[j]) != "dataType" {
      PrepareKwargsKeys(kw, p.keys[j]);
      if p.keys[j] == "attributeType" {
        PlainKeyIsCamel("attributeType");
      }
    }
    LastWithSingle(p.keys, p.values, "dataType", i);
  }

  /** An attribute type such as "double" reaches `cmds.addAttr` as
      `attributeType`, unless another argument's converted name overrides
      it. */
  lemma AddAttrAttributeType(node: string, longName: string, kw: Kwargs, t: string)
    requires ValidKwargs(kw)
    requires Lookup(kw, "type") == Some(Text(t)) && t in AttributeTypes
    requires forall k :: k in kw.keys ==> Utils.SnakeToCamel(k) != "longName"
    requires forall k :: k in kw.keys && k != "attributeType" ==> Utils.SnakeToCamel(k) != "attributeType"
    ensures AddAttr(node, longName, kw).Success?
    ensures Lookup(AddAttr(node, longName, kw).value.flags, "attributeType") == Some(Text(t))
  {
    var p := PrepareKwargs(kw);
    TypeListsDisjoint(t);
    PrepareKwargsType(kw);
    PreparedNoLongName(kw);
    assert Lookup(p, "attributeType") == Some(Text(t));
    var i :| 0 <= i < |p.keys| && p.keys[i] == "attributeType";
    PlainKeyIsCamel("attributeType");
    forall j | 0 <= j < |p.keys| && j != i ensures Utils.SnakeToCamel(p.keys[j]) != "attributeType" {
      PrepareKwargsKeys(kw, p.keys[j]);
      if p.keys[j] == "dataType" {
        PlainKeyIsCamel("dataType");
      }
    }
    LastWithSingle(p.keys, p.values, "attributeType", i);
  }

  /** A type outside both lists produces neither flag. */
  lemma AddAttrOtherType(node: string, longName: string, kw: Kwargs)
    requires ValidKwargs(kw)
    requires match Lookup(kw, "type")
             case Some(Text(t)) => t !in DataTypes && t !in AttributeTypes
             case _ => true
    requires forall k :: k in kw.keys ==> Utils.SnakeToCamel(k) != "longName"
    requires forall k :: k in kw.keys ==> Utils.SnakeToCamel(k) != "dataType" && Utils.SnakeToCamel(k) != "attributeType"
    ensures AddAttr(node, longName, kw).Success?
    ensures Lookup(AddAttr(node, longName, kw).value.flags, "dataType").None?
    ensures Lookup(AddAttr(node, longName, kw).value.flags, "attributeType").None?
  {
    var p := PrepareKwargs(kw);
    PrepareKwargsType(kw);
    PreparedNoLongName(kw);
    PlainKeyIsCamel("dataType");
    PlainKeyIsCamel("attributeType");
    assert "dataType" !in kw.keys && "attributeType" !in kw.keys;
    assert Lookup(p, "dataType").None? && Lookup(p, "attributeType").None?;
    forall j | 0 <= j < |p.keys|
      ensures Utils.SnakeToCamel(p.keys[j]) != "dataType" && Utils.SnakeToCamel(p.keys[j]) != "attributeType"
    {
      PrepareKwargsKeys(kw, p.keys[j]);
    }
    LastWithNone(p.keys, p.values, "dataType");
    LastWithNone(p.keys, p.values, "attributeType");
  }

  // ---------------------------------------------------------------------
  // Container.__getitem__
  // ---------------------------------------------------------------------

  /** The ASCII characters `str.isspace()` accepts, which Python's `int()`
      skips around a number: space, tab, line feed, vertical tab, form
      feed, carriage return and the separators 0x1C to 0x1F. */
  predicate IsSpace(c: char) {
    c == ' ' || '\t' <= c <= '\r' || '\U{1C}' <= c <= '\U{1F}'
  }

  function TrimStart(s: string): (r: string)
    ensures |r| <= |s| && r == s[|s| - |r|..]
    ensures |r| > 0 ==> !IsSpace(r[0])
    ensures forall i :: 0 <= i < |s| - |r| ==> IsSpace(s[i])
    decreases |s|
  {
    if |s| > 0 && IsSpace(s[0]) then TrimStart(s[1..]) else s
  }

  function TrimEnd(s: string): (r: string)
    ensures |r| <= |s| && r == s[..|r|]
    ensures |r| > 0 ==> !IsSpace(r[|r| - 1])
    ensures forall i :: |r| <= i < |s| ==> IsSpace(s[i])
    decreases |s|
  {
    if |s| > 0 && IsSpace(s[|s| - 1]) then TrimEnd(s[..|s| - 1]) else s
  }

  lemma TrimDigits(text: string)
    requires |text| > 0 && AllDigits(text)
    ensures TrimEnd(TrimStart(text)) == text
  {
    assert !IsSpace(text[0]);
    assert !IsSpace(text[|text| - 1]);
  }

  lemma TrimKeepsChars(text: string, i: nat)
    requires i < |TrimEnd(TrimStart(text))|
    ensures TrimEnd(TrimStart(text))[i] in text
  {
    var a := TrimStart(text);
    var t := TrimEnd(a);
    assert t[i] == a[i];
    assert a[i] == text[|text| - |a| + i];
  }

  /** Trimmed text `int()` accepts: an optional "+" or "-", then at least
      one digit, and nothing else. */
  predicate IsNumberText(t: string) {
    (|t| > 0 && AllDigits(t)) ||
    (|t| > 1 && (t[0] == '-' || t[0] == '+') && AllDigits(t[1..]))
  }

  /** The sign and digits of an already trimmed number. */
  function SignedDigits(t: string): (r: Option<int>)
    ensures r.Some? <==> IsNumberText(t)
    ensures |t| > 0 && AllDigits(t) ==> r == Some(DigitsValue(t))
    ensures r.Some? && t[0] == '-' ==> AllDigits(t[1..]) && r.value == -(DigitsValue(t[1..]) as int)
    ensures r.Some? && t[0] == '+' ==> AllDigits(t[1..]) && r.value == DigitsValue(t[1..])
    ensures r.Some? ==> exists i :: 0 <= i < |t| && IsDigit(t[i])
  {
    var negative := |t| > 0 && t[0] == '-';
    var digits := if |t| > 0 && (t[0] == '-' || t[0] == '+') then t[1..] else t;
    if |digits| > 0 && AllDigits(digits) then
      var v: int := DigitsValue(digits);
      assert IsDigit(t[|t| - |digits|]);
      Some(if negative then -v else v)
    else
      None
  }

  /** Python's `int(text)` on a decimal string: surrounding whitespace,
      an optional sign, then at least one digit; anything else is a
      ValueError (None here). */
  function ParseInt(text: string): (r: Option<int>)
    ensures r.Some? <==> IsNumberText(TrimEnd(TrimStart(text)))
    ensures r.Some? ==> r == SignedDigits(TrimEnd(TrimStart(text)))
    ensures |text| > 0 && AllDigits(text) ==> r == Some(DigitsValue(text))
    ensures (forall i :: 0 <= i < |text| ==> !IsDigit(text[i])) ==> r.None?
  {
    TrimmedDigits(text);
    TrimmedNeedsDigit(text);
    SignedDigits(TrimEnd(TrimStart(text)))
  }

  /** A plain digit run is read as its value. */
  lemma TrimmedDigits(text: string)
    ensures |text| > 0 && AllDigits(text) ==> SignedDigits(TrimEnd(TrimStart(text))) == Some(DigitsValue(text))
  {
    if |text| > 0 && AllDigits(text) {
      TrimDigits(text);
    }
  }

  /** A number is only read from text that holds a digit. */
  lemma TrimmedNeedsDigit(text: string)
    ensures SignedDigits(TrimEnd(TrimStart(text))).Some? ==> exists i :: 0 <= i < |text| && IsDigit(text[i])
  {
    var t := TrimEnd(TrimStart(text));
    if SignedDigits(t).Some? {
      var i :| 0 <= i < |t| && IsDigit(t[i]);
      TrimKeepsChars(text, i);
    }
  }

  /** Malformed index text is rejected: a letter after the digits, a
      space between two digits, and a doubled sign. */
  lemma ParseIntRejectsMalformed(letter: string, spaced: string, signs: string)
    requires letter == "1a" && spaced == "1 2" && signs == "--1"
    ensures ParseInt(letter).None? && ParseInt(spaced).None? && ParseInt(signs).None?
  {
    TrimNoSpaceEnds(letter);
    assert !IsNumberText(letter) by { assert !IsDigit(letter[1]); }
    TrimNoSpaceEnds(spaced);
    assert !IsNumberText(spaced) by { assert !IsDigit(spaced[1]) && spaced[1..][0] == spaced[1]; }
    TrimNoSpaceEnds(signs);
    assert !IsNumberText(signs) by { assert !IsDigit(signs[1]) && signs[1..][0] == signs[1]; }
  }

  /** `int("-" + digits)` is minus the value of the digits. */
  lemma ParseIntMinus(d: string)
    requires |d| > 0 && AllDigits(d)
    ensures ParseInt("-" + d) == Some(-(DigitsValue(d) as int))
  {
    var text := "-" + d;
    assert text[|text| - 1] == d[|d| - 1];
    TrimNoSpaceEnds(text);
    SignedMinus(d, text);
    assert ParseInt(text) == SignedDigits(TrimEnd(TrimStart(text)));
  }

  /** Text that neither starts nor ends with whitespace is not trimmed. */
  lemma TrimNoSpaceEnds(text: string)
    requires |text| > 0 && !IsSpace(text[0]) && !IsSpace(text[|text| - 1])
    ensures TrimEnd(TrimStart(text)) == text
  {
    assert TrimStart(text) == text;
  }

  /** The sign "-" negates the digits after it. */
  lemma SignedMinus(d: string, text: string)
    requires |d| > 0 && AllDigits(d) && text == "-" + d
    ensures SignedDigits(text) == Some(-(DigitsValue(d) as int))
  {
    assert text[0] == '-' && text[1..] == d;
  }

  /** What `Container.__getitem__` returns: a published attribute, an
      element or child of one, or the container node's own attribute of
      that name (the fallback to `Node.__getitem__`). */
  datatype AttrRef =
    | Published(publishedName: string)
    | Element(base: AttrRef, index: int)
    | Child(parent: AttrRef, childName: string)
    | NodeAttr(attrName: string)

  /** The published attribute a reference starts from, if any. */
  function Root(a: AttrRef): Option<string> {
    match a
    case Published(n) => Some(n)
    case Element(b, _) => Root(b)
    case Child(b, _) => Root(b)
    case NodeAttr(_) => None
  }

  /** Element `n` of the published `prefix`, then its child `rest` when
      `rest` is not empty. */
  function ElementRef(prefix: string, n: int, rest: string): (r: AttrRef)
    ensures Root(r) == Some(prefix)
    ensures rest == "" <==> r.Element?
  {
    var e := Element(Published(prefix), n);
    assert Root(e) == Some(prefix);
    if rest != "" then Child(e, rest) else e
  }

  /** `Container.__getitem__` over the published names of the container.
      A "[" without a later "]" makes the two-value unpacking of
      `split("]", 1)` fail, and a bad index makes `int()` fail; both are
      ValueErrors. */
  function ContainerGet(published: set<string>, attr: string): (r: Result<AttrRef, PyException>)
    ensures attr in published ==> r == Success(Published(attr))
    ensures r.Failure? ==> r.error == ValueError && '[' in attr
    ensures '[' !in attr && '.' !in attr && attr !in published ==> r == Success(NodeAttr(attr))
    ensures r.Success? && Root(r.value).Some? ==> Root(r.value).value in published
  {
    if attr in published then Success(Published(attr))
    else if '[' in attr then
      var i := FirstIndex(attr, '[');
      var prefix := attr[..i];
      var back := attr[i + 1..];
      if ']' !in back then Failure(ValueError)
      else
        var j := FirstIndex(back, ']');
        var index := back[..j];
        var rest := back[j + 1..];
        if prefix in published then
          match ParseInt(index)
          case None => Failure(ValueError)
          case Some(n) => Success(ElementRef(prefix, n, rest))
        else Success(NodeAttr(attr))
    else if '.' in attr then
      var i := FirstIndex(attr, '.');
      var prefix := attr[..i];
      if prefix in published then Success(Child(Published(prefix), attr[i + 1..]))
      else Success(NodeAttr(attr))
    else Success(NodeAttr(attr))
  }

  /** `p[index]rest` with a published `p` and an index `int()` accepts
      reaches that element of `p`, then the child `rest` when there is
      one; a "." in `rest` does not change that. */
  lemma ContainerGetElement(published: set<string>, p: string, index: string, n: int, rest: string)
    requires p in published && '[' !in p && ']' !in index
    requires ParseInt(index) == Some(n)
    requires p + "[" + index + "]" + rest !in published
    ensures ContainerGet(published, p + "[" + index + "]" + rest) ==
              Success(if rest == "" then Element(Published(p), n) else Child(Element(Published(p), n), rest))
  {
    BracketSplit(p, index, rest);
  }

  /** `p[index]rest` with a published `p` and an index `int()` refuses is a
      ValueError, whatever follows the "]". */
  lemma ContainerGetBadIndex(published: set<string>, p: string, index: string, rest: string)
    requires p in published && '[' !in p && ']' !in index
    requires !IsNumberText(TrimEnd(TrimStart(index)))
    requires p + "[" + index + "]" + rest !in published
    ensures ContainerGet(published, p + "[" + index + "]" + rest) == Failure(ValueError)
  {
    BracketSplit(p, index, rest);
  }

  /** How `split("[", 1)` and `split("]", 1)` take `p[index]rest` apart. */
  lemma BracketSplit(p: string, index: string, rest: string)
    requires '[' !in p && ']' !in index
    ensures var attr := p + "[" + index + "]" + rest;
            var back := attr[|p| + 1..];
            FirstIndex(attr, '[') == |p| && attr[..|p|] == p &&
            ']' in back && FirstIndex(back, ']') == |index| &&
            back[..|index|] == index && back[|index| + 1..] == rest
  {
    var attr := p + "[" + index + "]" + rest;
    assert attr[|p|] == '[';
    assert attr[..|p|] == p;
    var back := attr[|p| + 1..];
    assert back == index + "]" + rest;
    assert back[|index|] == ']';
    assert back[..|index|] == index;
    assert back[|index| + 1..] == rest;
  }

  /** An element index written as decimal digits, with or without a
      leading "-", holds no "]" and is read back as its value. */
  lemma ParseIntOfDigits(d: string)
    requires |d| > 0 && AllDigits(d)
    ensures ']' !in d && ParseInt(d) == Some(DigitsValue(d))
    ensures ']' !in "-" + d && ParseInt("-" + d) == Some(-(DigitsValue(d) as int))
  {
    assert ']' !in d by {
      forall k | 0 <= k < |d| ensures d[k] != ']' {
        assert IsDigit(d[k]);
      }
    }
    assert ("-" + d)[1..] == d;
    ParseIntMinus(d);
  }

  /** `p.rest` with a published `p` and no "[" reaches the child `rest`
      of `p`. */
  lemma ContainerGetChild(published: set<string>, p: string, rest: string)
    requires p in published && '.' !in p && '[' !in p && '[' !in rest
    requires p + "." + rest !in published
    ensures ContainerGet(published, p + "." + rest) == Success(Child(Published(p), rest))
  {
    var attr := p + "." + rest;
    assert '[' !in attr by {
      forall k | 0 <= k < |attr| ensures attr[k] != '[' {
        if k < |p| { assert attr[k] == p[k]; }
        else if k > |p| { assert attr[k] == rest[k - |p| - 1]; }
      }
    }
    assert attr[|p|] == '.';
    assert FirstIndex(attr, '.') == |p|;
    assert attr[..|p|] == p;
    assert attr[|p| + 1..] == rest;
  }

  /** A name that is not published and whose prefix before the first "["
      (or, without "[", before the first ".") is not published either is
      looked up on the container node itself. */
  lemma ContainerGetFallback(published: set<string>, attr: string)
    requires attr !in published
    requires '[' in attr ==> attr[..FirstIndex(attr, '[')] !in published
                             && ']' in attr[FirstIndex(attr, '[') + 1..]
    requires '[' !in attr && '.' in attr ==> attr[..FirstIndex(attr, '.')] !in published
    ensures ContainerGet(published, attr) == Success(NodeAttr(attr))
  {
  }

  // ---------------------------------------------------------------------
  // Container.lock / Container.unlock
  // ---------------------------------------------------------------------

  /** The container hierarchy as Maya reports it: the parent container of
      each nested container, and its nesting depth, which strictly
      decreases towards the outermost container. */
  datatype Scene = Scene(parentOf: map<string, string>, depth: map<string, nat>)

  ghost predicate WellNested(sc: Scene) {
    forall c :: c in sc.parentOf ==>
      c in sc.depth && sc.parentOf[c] in sc.depth && sc.depth[sc.parentOf[c]] < sc.depth[c]
  }

  function Height(sc: Scene, c: string): nat {
    if c in sc.depth then sc.depth[c] + 1 else 0
  }

  /** `p` is the parent container of `c`. */
  predicate ParentIs(sc: Scene, c: string, p: string) {
    c in sc.parentOf && sc.parentOf[c] == p
  }

  /** A container followed by its parent container, its parent's parent,
      and so on up to the outermost one. */
  function Chain(sc: Scene, c: string): (r: seq<string>)
    requires WellNested(sc)
    ensures |r| >= 1 && r[0] == c
    decreases Height(sc, c)
  {
    if c in sc.parentOf then [c] + Chain(sc, sc.parentOf[c]) else [c]
  }

  /** Each container of the chain is followed by its parent, and the chain
      ends at a container without one. */
  lemma {:induction false} ChainLinks(sc: Scene, c: string)
    requires WellNested(sc)
    ensures var r := Chain(sc, c);
            r[|r| - 1] !in sc.parentOf && forall i :: 0 <= i < |r| - 1 ==> ParentIs(sc, r[i], r[i + 1])
    decreases Height(sc, c)
  {
    if c in sc.parentOf {
      var p := sc.parentOf[c];
      ChainLinks(sc, p);
      var r := Chain(sc, c);
      assert r == [c] + Chain(sc, p);
      forall i | 0 <= i < |r| - 1 ensures ParentIs(sc, r[i], r[i + 1]) {
        if i > 0 {
          assert r[i] == Chain(sc, p)[i - 1] && r[i + 1] == Chain(sc, p)[i];
        }
      }
    }
  }

  /** Along the chain the depth strictly decreases, so no container is
      visited twice. */
  /** Every container of `r` is nested less deeply than `c`. */
  ghost predicate Shallower(sc: Scene, r: seq<string>, c: string) {
    c in sc.depth && forall i :: 0 <= i < |r| ==> r[i] in sc.depth && sc.depth[r[i]] < sc.depth[c]
  }

  lemma {:induction false} ChainDistinct(sc: Scene, c: string)
    requires WellNested(sc)
    ensures DistinctSeq(Chain(sc, c))
    ensures c in sc.parentOf ==> Shallower(sc, Chain(sc, c)[1..], c)
    decreases Height(sc, c)
  {
    if c in sc.parentOf {
      var p := sc.parentOf[c];
      ChainDistinct(sc, p);
      var q := Chain(sc, p);
      var r := Chain(sc, c);
      assert r == [c] + q;
      assert r[1..] == q;
      assert c in sc.depth && p in sc.depth && sc.depth[p] < sc.depth[c];
      forall k | 0 <= k < |q| ensures q[k] in sc.depth && sc.depth[q[k]] < sc.depth[c] {
        if k > 0 {
          ChainStep(sc, p);
          assert q[k] == q[1..][k - 1];
        }
      }
      forall i, j | 0 <= i < j < |r| ensures r[i] != r[j] {
        if i == 0 {
          assert r[j] == q[j - 1];
        } else {
          assert r[i] == q[i - 1] && r[j] == q[j - 1];
        }
      }
    } else {
      assert Chain(sc, c) == [c];
    }
  }

  function Reverse<T>(s: seq<T>): (r: seq<T>)
    ensures |r| == |s|
    ensures forall i :: 0 <= i < |s| ==> r[i] == s[|s| - 1 - i]
  {
    if |s| == 0 then [] else Reverse(s[1..]) + [s[0]]
  }

  /** The `while current_container is not None` loop shared by `lock` and
      `unlock`. */
  method CollectChain(sc: Scene, self: string) returns (list: seq<string>)
    requires WellNested(sc)
    ensures list == Chain(sc, self)
  {
    list := [];
    var current := self;
    var more := true;
    while more
      invariant more ==> list + Chain(sc, current) == Chain(sc, self)
      invariant !more ==> list == Chain(sc, self)
      decreases more, Height(sc, current)
    {
      ChainStep(sc, current);
      if current in sc.parentOf {
        var p := sc.parentOf[current];
        assert (list + [current]) + Chain(sc, p) == list + ([current] + Chain(sc, p));
        list := list + [current];
        current := p;
      } else {
        list := list + [current];
        more := false;
      }
    }
  }

  lemma ChainStep(sc: Scene, c: string)
    requires WellNested(sc)
    ensures c in sc.parentOf ==> Chain(sc, c) == [c] + Chain(sc, sc.parentOf[c])
                                 && Height(sc, sc.parentOf[c]) < Height(sc, c)
    ensures c !in sc.parentOf ==> Chain(sc, c) == [c]
  {
  }

  /** `Container.lock`: the containers locked, in order. With propagation
      they run from this container out to the outermost one. */
  method Lock(sc: Scene, self: string, propagate: bool) returns (visited: seq<string>)
    requires WellNested(sc)
    ensures propagate ==> visited == Chain(sc, self)
    ensures !propagate ==> visited == [self]
  {
    if propagate {
      visited := CollectChain(sc, self);
    } else {
      visited := [self];
    }
  }

  /** `Container.unlock`: the same containers as `lock`, in reverse order,
      so the outermost container is unlocked first. */
  method Unlock(sc: Scene, self: string, propagate: bool) returns (visited: seq<string>)
    requires WellNested(sc)
    ensures propagate ==> visited == Reverse(Chain(sc, self))
    ensures !propagate ==> visited == [self]
  {
    var list;
    if propagate {
      list := CollectChain(sc, self);
    } else {
      list := [self];
    }
    visited := Reverse(list);
  }

  /** With propagation, unlocking starts at the outermost container and
      walks down parent by parent to this one. */
  lemma UnlockOrder(sc: Scene, self: string)
    requires WellNested(sc)
    ensures var u := Reverse(Chain(sc, self));
            u[0] !in sc.parentOf && u[|u| - 1] == self &&
            (forall i :: 0 <= i < |u| - 1 ==> ParentIs(sc, u[i + 1], u[i]))
  {
    var r := Chain(sc, self);
    var u := Reverse(r);
    ChainLinks(sc, self);
    assert u[0] == r[|r| - 1];
    assert u[|u| - 1] == r[0];
    forall i | 0 <= i < |u| - 1 ensures ParentIs(sc, u[i + 1], u[i]) {
      var j := |r| - 2 - i;
      assert 0 <= j < |r| - 1;
      assert ParentIs(sc, r[j], r[j + 1]);
      assert u[i + 1] == r[j] && u[i] == r[j + 1];
    }
  }

  lemma ReverseDistinct(s: seq<string>)
    requires DistinctSeq(s)
    ensures DistinctSeq(Reverse(s))
  {
    var u := Reverse(s);
    forall i, j | 0 <= i < j < |u| ensures u[i] != u[j] {
      assert u[i] == s[|s| - 1 - i] && u[j] == s[|s| - 1 - j];
    }
  }

  /** Locking and unlocking each touch every container of the chain
      exactly once. */
  lemma ChainVisitedOnce(sc: Scene, self: string)
    requires WellNested(sc)
    ensures DistinctSeq(Chain(sc, self))
    ensures DistinctSeq(Reverse(Chain(sc, self)))
  {
    ChainDistinct(sc, self);
    ReverseDistinct(Chain(sc, self));
  }
}
