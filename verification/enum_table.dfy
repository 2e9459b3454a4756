/** The class methods every `MayaEnumAttr` enum shares: members are listed
    in declaration order, and Python's `for i, e in enumerate(cls)` becomes
    a walk over that sequence. */
module EnumTable {
  import opened Wrappers
  import opened PyStr

  predicate Distinct<T(==)>(members: seq<T>) {
    forall i, j :: 0 <= i < j < |members| ==> members[i] != members[j]
  }

  /** Members that an index function reads back position by position are
      distinct. */
  lemma DistinctByIndex<T>(members: seq<T>, idx: T -> nat)
    requires forall k :: 0 <= k < |members| ==> idx(members[k]) == k
    ensures Distinct(members)
  {
  }

  /** `maya_enum_str`: the member names joined with ":". */
  function MayaEnumStr(names: seq<string>): string {
    Join(names, ':')
  }

  /** The string has one ":" fewer than there are members when no name
      holds a ":". */
  lemma {:induction false} MayaEnumStrSeparators(names: seq<string>)
    requires |names| >= 1
    requires forall k :: 0 <= k < |names| ==> ':' !in names[k]
    ensures Count(MayaEnumStr(names), ':') == |names| - 1
    decreases |names|
  {
    CountAbsent(names[0], ':');
    if |names| > 1 {
      MayaEnumStrSeparators(names[1..]);
      CountAppend(names[0] + [':'], Join(names[1..], ':'), ':');
      CountAppend(names[0], [':'], ':');
    }
  }

  /** Splitting the string on ":" gives the names back, in declaration
      order, as long as no name holds a ":". */
  lemma MayaEnumStrRoundTrip(names: seq<string>)
    requires |names| >= 1
    requires forall k :: 0 <= k < |names| ==> ':' !in names[k]
    ensures Split(MayaEnumStr(names), ':') == names
  {
    SplitJoin(names, ':');
  }

  /** `get`: the member at `index`, or None when no member has it (a
      negative index included). */
  function Get<T>(members: seq<T>, index: int): (r: Option<T>)
    ensures r.Some? <==> 0 <= index < |members|
    ensures r.Some? ==> r.value == members[index]
    decreases |members|
  {
    if |members| == 0 then None
    else if index == 0 then Some(members[0])
    else Get(members[1..], index - 1)
  }

  /** `index_of`: the position of the first member equal to `e`, or None. */
  function IndexOf<T(==)>(members: seq<T>, e: T): (r: Option<nat>)
    ensures r.Some? <==> e in members
    ensures r.Some? ==> r.value < |members| && members[r.value] == e && e !in members[..r.value]
    decreases |members|
  {
    if |members| == 0 then None
    else if members[0] == e then Some(0)
    else
      var k := IndexOf(members[1..], e);
      if k.None? then None
      else
        assert members[..k.value + 1] == [members[0]] + members[1..][..k.value];
        Some(k.value + 1)
  }

  /** `index_of` undoes `get` on every valid index of distinct members. */
  lemma GetIndexOfInverse<T>(members: seq<T>, i: int)
    requires Distinct(members) && 0 <= i < |members|
    ensures IndexOf(members, Get(members, i).value) == Some(i)
  {
  }

  /** `get` undoes `index_of` on every member. */
  lemma IndexOfGetInverse<T>(members: seq<T>, e: T)
    requires e in members
    ensures Get(members, IndexOf(members, e).value) == Some(e)
  {
  }

  /** `{data.name: cls.index_of(f(data)) for data in cls}`, with the dict
      kept as its entries in insertion order. */
  function IndexMapping<T(==)>(members: seq<T>, name: T -> string, f: T -> T): (r: seq<(string, nat)>)
    requires forall k :: 0 <= k < |members| ==> f(members[k]) in members
    ensures |r| == |members|
    ensures forall k {:trigger r[k]} :: 0 <= k < |members| ==>
              r[k].0 == name(members[k]) && r[k].1 < |members| && members[r[k].1] == f(members[k])
  {
    seq(|members|, k requires 0 <= k < |members| => MappingEntry(members, name, f, k))
  }

  /** One entry of the index mapping: the name of the `k`-th member and the
      index of its image. */
  function MappingEntry<T(==)>(members: seq<T>, name: T -> string, f: T -> T, k: nat): (e: (string, nat))
    requires k < |members| && f(members[k]) in members
    ensures e.0 == name(members[k]) && e.1 < |members| && members[e.1] == f(members[k])
  {
    (name(members[k]), IndexOf(members, f(members[k])).value)
  }

  /** For an involution `f`, the index mapping is an involution on indices:
      following it twice comes back to the start. */
  lemma IndexMappingInvolution<T>(members: seq<T>, name: T -> string, f: T -> T)
    requires Distinct(members)
    requires forall k :: 0 <= k < |members| ==> f(members[k]) in members
    requires forall k :: 0 <= k < |members| ==> f(f(members[k])) == members[k]
    ensures var r := IndexMapping(members, name, f);
            forall k :: 0 <= k < |r| ==> r[r[k].1].1 == k
  {
    var r := IndexMapping(members, name, f);
    forall k | 0 <= k < |r|
      ensures r[r[k].1].1 == k
    {
      var j := r[k].1;
      assert members[r[j].1] == f(f(members[k])) == members[k];
    }
  }

  /** The min/max pass of `create_remap`: both bounds start at 0, are set
      to the first value, and are then widened by every value. */
  method CreateRemapBounds(values: seq<int>) returns (outMin: int, outMax: int)
    ensures |values| == 0 ==> outMin == 0 && outMax == 0
    ensures forall k :: 0 <= k < |values| ==> outMin <= values[k] <= outMax
    ensures |values| > 0 ==> outMin in values && outMax in values
  {
    outMin := 0;
    outMax := 0;
    if |values| > 0 {
      outMin := values[0];
      outMax := values[0];
    }
    var i := 0;
    while i < |values|
      invariant 0 <= i <= |values|
      invariant forall k :: 0 <= k < i ==> outMin <= values[k] <= outMax
      invariant |values| > 0 ==> outMin in values && outMax in values
      invariant |values| == 0 ==> outMin == 0 && outMax == 0
    {
      if values[i] < outMin {
        outMin := values[i];
      }
      if values[i] > outMax {
        outMax := values[i];
      }
      i := i + 1;
    }
  }

  /** The smallest value, as an independent definition of the bound. */
  function SeqMin(values: seq<int>): (r: int)
    requires |values| > 0
    ensures r in values && forall k :: 0 <= k < |values| ==> r <= values[k]
  {
    if |values| == 1 then values[0]
    else
      var m := SeqMin(values[1..]);
      if values[0] < m then values[0] else m
  }

  function SeqMax(values: seq<int>): (r: int)
    requires |values| > 0
    ensures r in values && forall k :: 0 <= k < |values| ==> values[k] <= r
  {
    if |values| == 1 then values[0]
    else
      var m := SeqMax(values[1..]);
      if values[0] > m then values[0] else m
  }

  /** Bounds that hold every value and are attained are the minimum and
      maximum, so the pass computes exactly those. */
  lemma RemapBoundsAreMinMax(values: seq<int>, lo: int, hi: int)
    requires |values| > 0
    requires forall k :: 0 <= k < |values| ==> lo <= values[k] <= hi
    requires lo in values && hi in values
    ensures lo == SeqMin(values) && hi == SeqMax(values)
  {
  }
}
