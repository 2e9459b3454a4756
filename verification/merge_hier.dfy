/** `MergeHier` of `component/misc.py`: the validation of its source
    components, the split into a primary source and the remaining ones,
    the slots those sources are wired to, and the blend settings of the
    build. Components are abstract records of what the code reads from
    them. */
module MergeHier {
  import opened Wrappers
  import opened PyStr
  import NodeWrapper

  /** A source component as `MergeHier` sees it. */
  datatype Source = Source(
    container: string,     // its container node
    xformCount: nat,       // len(container_node[OUTPUT_XFORM])
    isHierarchy: bool,     // issubclass(type(c), base_comp.Hierarchy)
    hasTransform: bool)    // transform_node is not None

  // ---------------------------------------------------------------------
  // __check_source_components
  // ---------------------------------------------------------------------

  /** The containers enclosing the merge container, innermost first: the
      `while curr_par_cntnr is not None` loop. */
  function Ancestors(sc: NodeWrapper.Scene, self: string): (r: seq<string>)
    requires NodeWrapper.WellNested(sc)
    ensures self in sc.parentOf ==> r == NodeWrapper.Chain(sc, sc.parentOf[self])
    ensures self !in sc.parentOf ==> r == []
  {
    if self in sc.parentOf then NodeWrapper.Chain(sc, sc.parentOf[self]) else []
  }

  function LengthError(s: Source, expected: nat): PyException {
    RuntimeError(s.container + " has mismatched len. expecting " + NatToString(expected) +
                 " got " + NatToString(s.xformCount))
  }

  const AncestorError := RuntimeError("source container cannot be parent of merge container")

  function TypeError(s: Source): PyException {
    RuntimeError(s.container + " is not hierarchy component")
  }

  /** Does one source pass all three checks? */
  predicate Acceptable(s: Source, expected: nat, ancestors: seq<string>) {
    s.xformCount == expected && s.container !in ancestors && s.isHierarchy
  }

  /** The checks on one source, in the order the loop body makes them:
      length, then ancestry, then type. */
  function SourceProblem(s: Source, expected: nat, ancestors: seq<string>): (r: Option<PyException>)
    ensures r.None? <==> Acceptable(s, expected, ancestors)
    ensures s.xformCount != expected ==> r == Some(LengthError(s, expected))
    ensures s.xformCount == expected && s.container in ancestors ==> r == Some(AncestorError)
  {
    if s.xformCount != expected then Some(LengthError(s, expected))
    else if s.container in ancestors then Some(AncestorError)
    else if !s.isHierarchy then Some(TypeError(s))
    else None
  }

  /** The loop over the sources: the first source with a problem raises. */
  function CheckEach(sources: seq<Source>, expected: nat, ancestors: seq<string>): (r: Option<PyException>)
    ensures r.None? <==> forall k :: 0 <= k < |sources| ==> Acceptable(sources[k], expected, ancestors)
    ensures r.Some? ==> (exists k :: 0 <= k < |sources| &&
                          (forall j :: 0 <= j < k ==> Acceptable(sources[j], expected, ancestors)) &&
                          r == SourceProblem(sources[k], expected, ancestors))
    decreases |sources|
  {
    if |sources| == 0 then None
    else
      match SourceProblem(sources[0], expected, ancestors)
      case Some(e) => Some(e)
      case None =>
        var rest := CheckEach(sources[1..], expected, ancestors);
        assert rest.Some? ==> (exists k :: 0 <= k < |sources| &&
                                (forall j :: 0 <= j < k ==> Acceptable(sources[j], expected, ancestors)) &&
                                rest == SourceProblem(sources[k], expected, ancestors)) by {
          if rest.Some? {
            var k :| 0 <= k < |sources| - 1 &&
                     (forall j :: 0 <= j < k ==> Acceptable(sources[1..][j], expected, ancestors)) &&
                     rest == SourceProblem(sources[1..][k], expected, ancestors);
            assert forall j :: 0 <= j < k + 1 ==> Acceptable(sources[j], expected, ancestors) by {
              forall j | 0 <= j < k + 1 ensures Acceptable(sources[j], expected, ancestors) {
                if j > 0 {
                  assert sources[j] == sources[1..][j - 1];
                }
              }
            }
            assert sources[k + 1] == sources[1..][k];
          }
        }
        assert rest.None? ==> forall k :: 0 <= k < |sources| ==> Acceptable(sources[k], expected, ancestors) by {
          if rest.None? {
            forall k | 0 <= k < |sources| ensures Acceptable(sources[k], expected, ancestors) {
              if k > 0 {
                assert sources[k] == sources[1..][k - 1];
              }
            }
          }
        }
        rest
  }

  /** `__check_source_components`: an empty list passes; otherwise every
      source must have as many output transforms as the first, must not
      be a container enclosing the merge container, and must be a
      Hierarchy component. */
  function CheckSources(sources: seq<Source>, ancestors: seq<string>): (r: Option<PyException>)
    ensures |sources| == 0 ==> r.None?
    ensures |sources| > 0 ==>
              (r.None? <==> forall k :: 0 <= k < |sources| ==>
                              sources[k].xformCount == sources[0].xformCount &&
                              sources[k].container !in ancestors && sources[k].isHierarchy)
  {
    if |sources| < 1 then None
    else CheckEach(sources, sources[0].xformCount, ancestors)
  }

  /** A source in the wrong place in the check order is reported by its
      first failing check: a length mismatch hides the other two. */
  lemma CheckReportsFirstProblem(sources: seq<Source>, ancestors: seq<string>, k: nat)
    requires k < |sources|
    requires forall j :: 0 <= j < k ==> Acceptable(sources[j], sources[0].xformCount, ancestors)
    requires !Acceptable(sources[k], sources[0].xformCount, ancestors)
    ensures CheckSources(sources, ancestors) == SourceProblem(sources[k], sources[0].xformCount, ancestors)
  {
    var expected := sources[0].xformCount;
    var r := CheckSources(sources, ancestors);
    var i :| 0 <= i < |sources| &&
             (forall j :: 0 <= j < i ==> Acceptable(sources[j], expected, ancestors)) &&
             r == SourceProblem(sources[i], expected, ancestors);
    if i < k {
      // sources[i] passes every check, so it cannot be the one reported
      assert false;
    }
  }

  // ---------------------------------------------------------------------
  // __connect_components
  // ---------------------------------------------------------------------

  /** The connections `__connect_components` makes. */
  datatype Link =
    | Visibility(index: nat, container: string)           // hierVisibility[index] >> visibility
    | HierParent(index: nat, container: string)           // hierParentMatrix >> hierParentMatricies[index]
    | LocMatrix(slot: nat, xform: nat, container: string) // hierarchy[slot].hierarchyLocMatrix[xform]

  /** `set_component_vis` then `connect_hier_parent` for one source. */
  function SourceLinks(index: nat, s: Source): (r: seq<Link>)
    ensures forall l :: l in r ==> !l.LocMatrix? && l.index == index && l.container == s.container
    ensures HierParent(index, s.container) in r
    ensures Visibility(index, s.container) in r <==> s.hasTransform
  {
    (if s.hasTransform then [Visibility(index, s.container)] else []) + [HierParent(index, s.container)]
  }

  /** The transforms of the k-th remaining source, wired to slot k. */
  function XformLinks(slot: nat, s: Source, n: nat): (r: seq<Link>)
    requires n <= s.xformCount
    ensures forall l :: l in r <==> l.LocMatrix? && l.slot == slot && l.xform < n && l.container == s.container
    decreases n
  {
    if n == 0 then [] else XformLinks(slot, s, n - 1) + [LocMatrix(slot, n - 1, s.container)]
  }

  /** The loop over the remaining sources, from position `k` on. */
  function RestLinks(rest: seq<Source>, k: nat): (r: seq<Link>)
    requires k <= |rest|
    ensures forall l :: l in r && l.LocMatrix? <==>
              l.LocMatrix? && k <= l.slot < |rest| && l.xform < rest[l.slot].xformCount && l.container == rest[l.slot].container
    ensures forall l :: l in r && l.HierParent? <==>
              l.HierParent? && k + 1 <= l.index <= |rest| && l.container == rest[l.index - 1].container
    ensures forall l :: l in r && l.Visibility? <==>
              l.Visibility? && k + 1 <= l.index <= |rest| && l.container == rest[l.index - 1].container &&
              rest[l.index - 1].hasTransform
    decreases |rest| - k
  {
    if k == |rest| then []
    else
      var s := rest[k];
      XformLinks(k, s, s.xformCount) + SourceLinks(k + 1, s) + RestLinks(rest, k + 1)
  }

  /** `__connect_components` as written: it starts with
      `set_component_vis(0, source_component)`, which reads
      `.transform_node` of None when there is no primary source. */
  function ConnectAsWritten(primary: Option<Source>, rest: seq<Source>): (r: Result<seq<Link>, PyException>)
    ensures primary.None? <==> r == Failure(AttributeError)
    ensures primary.Some? ==> r.Success? && SourceLinks(0, primary.value) <= r.value
  {
    match primary
    case None => Failure(AttributeError)
    case Some(p) =>
      var head := SourceLinks(0, p);
      var all := head + RestLinks(rest, 0);
      assert all[..|head|] == head;
      Success(all)
  }

  /** `__connect_components` with the primary links skipped when there is
      no primary source. */
  function Connect(primary: Option<Source>, rest: seq<Source>): (r: seq<Link>)
    ensures primary.Some? ==> Success(r) == ConnectAsWritten(primary, rest)
    ensures primary.None? ==> r == RestLinks(rest, 0)
  {
    match primary
    case None => RestLinks(rest, 0)
    case Some(p) => SourceLinks(0, p) + RestLinks(rest, 0)
  }

  /** The primary source is wired to index 0; the k-th remaining source
      fills hierarchy slot k and visibility / parent index k + 1. */
  lemma ConnectSlots(p: Source, rest: seq<Source>)
    ensures var r := Connect(Some(p), rest);
            forall l :: l in r && l.HierParent? <==>
              l.HierParent? && l.index <= |rest| &&
              l.container == (if l.index == 0 then p.container else rest[l.index - 1].container)
    ensures var r := Connect(Some(p), rest);
            forall l :: l in r && l.LocMatrix? <==>
              l.LocMatrix? && l.slot < |rest| && l.xform < rest[l.slot].xformCount && l.container == rest[l.slot].container
    ensures var r := Connect(Some(p), rest);
            forall l :: l in r && l.Visibility? <==>
              l.Visibility? && l.index <= |rest| &&
              if l.index == 0 then l.container == p.container && p.hasTransform
              else l.container == rest[l.index - 1].container && rest[l.index - 1].hasTransform
  {
  }

  // ---------------------------------------------------------------------
  // _pre_build
  // ---------------------------------------------------------------------

  /** The split at the start of `_pre_build`: the first source is the
      primary one, the others are passed on to be connected. */
  function SplitSources(sources: seq<Source>): (r: (Option<Source>, seq<Source>))
    ensures |sources| == 0 <==> r.0.None?
    ensures |sources| == 0 ==> r.1 == []
    ensures |sources| > 0 ==> [r.0.value] + r.1 == sources
  {
    if |sources| < 1 then (None, []) else (Some(sources[0]), sources[1..])
  }

  /** `_pre_build` after the base-class call: check the sources, then
      connect them. */
  function PreBuild(sources: seq<Source>, ancestors: seq<string>): (r: Result<seq<Link>, PyException>)
    ensures CheckSources(sources, ancestors).Some? ==> r == Failure(CheckSources(sources, ancestors).value)
    ensures r.Success? ==> r.value == Connect(SplitSources(sources).0, SplitSources(sources).1)
    ensures |sources| == 0 ==> r == Success([])
  {
    match CheckSources(sources, ancestors)
    case Some(e) => Failure(e)
    case None =>
      var (primary, rest) := SplitSources(sources);
      Success(Connect(primary, rest))
  }

  /** `_pre_build` as written, with `ConnectAsWritten`. */
  function PreBuildAsWritten(sources: seq<Source>, ancestors: seq<string>): (r: Result<seq<Link>, PyException>)
    ensures |sources| > 0 ==> r == PreBuild(sources, ancestors)
  {
    match CheckSources(sources, ancestors)
    case Some(e) => Failure(e)
    case None =>
      var (primary, rest) := SplitSources(sources);
      ConnectAsWritten(primary, rest)
  }

  /** An empty source list passes the check and then fails as written,
      while the corrected build connects nothing. */
  lemma EmptySourcesFailAsWritten(ancestors: seq<string>)
    ensures PreBuildAsWritten([], ancestors) == Failure(AttributeError)
    ensures PreBuild([], ancestors) == Success([])
  {
  }

  // ---------------------------------------------------------------------
  // _override_build
  // ---------------------------------------------------------------------

  /** Where the n-th hier parent matrix is plugged into the parent blend. */
  datatype BlendInput = InputMatrix | TargetMatrix(target: nat)

  /** What `_override_build` sets up, apart from its nodes and float
      remaps. */
  datatype BuildPlan =
    | NothingConnected                  // the cmds.warning branch
    | Plan(parentInputs: seq<BlendInput>,
           weightRanges: seq<(int, int)>,
           blendMax: int)

  /** `_override_build` given `num_hiers` (connected hier parents) and the
      number of `hierarchy` entries. `1 / (num_hiers - 1)` divides by zero
      for a single hier parent. */
  function OverrideBuild(numHiers: nat, numSlots: nat): (r: Result<BuildPlan, PyException>)
    ensures numHiers < 1 <==> r == Success(NothingConnected)
    ensures numHiers == 1 <==> r == Failure(ZeroDivisionError)
    ensures numHiers > 1 ==> r.Success? && r.value.Plan? && r.value.blendMax == numHiers - 1
    ensures r.Success? && r.value.Plan? ==>
              |r.value.parentInputs| == numHiers && |r.value.weightRanges| == numSlots &&
              (forall h :: 0 <= h < numSlots ==> r.value.weightRanges[h] == (h, h + 1))
  {
    if numHiers < 1 then Success(NothingConnected)
    else if numHiers == 1 then Failure(ZeroDivisionError)
    else
      var inputs := seq(numHiers, i requires 0 <= i < numHiers => if i == 0 then InputMatrix else TargetMatrix(i - 1));
      var ranges := seq(numSlots, h => (h, h + 1));
      Success(Plan(inputs, ranges, numHiers - 1))
  }

  /** The first hier parent is the blend's input and the others take the
      targets 0, 1, ... in order, each exactly once. */
  lemma ParentBlendInputs(numHiers: nat, numSlots: nat)
    requires numHiers > 1
    ensures var p := OverrideBuild(numHiers, numSlots).value;
            p.parentInputs[0] == InputMatrix &&
            forall t: nat :: TargetMatrix(t) in p.parentInputs <==> t < numHiers - 1
  {
    var p := OverrideBuild(numHiers, numSlots).value;
    forall t: nat | t < numHiers - 1 ensures TargetMatrix(t) in p.parentInputs {
      assert p.parentInputs[t + 1] == TargetMatrix(t);
    }
  }

  /** With one hierarchy entry per extra source (`num_hiers - 1` of them),
      the weight ranges tile the `hierBlend` range [0, num_hiers - 1]
      without gaps. */
  lemma WeightRangesCoverBlend(numHiers: nat, v: int)
    requires numHiers > 1 && 0 <= v <= numHiers - 1
    ensures var p := OverrideBuild(numHiers, numHiers - 1).value;
            exists h :: 0 <= h < |p.weightRanges| && p.weightRanges[h].0 <= v <= p.weightRanges[h].1
  {
    var p := OverrideBuild(numHiers, numHiers - 1).value;
    var h := if v == numHiers - 1 then v - 1 else v;
    assert p.weightRanges[h] == (h, h + 1);
  }
}
