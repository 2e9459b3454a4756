/** The pure part of the `Namespace` helper class in `utils/utils.py`:
    reading the namespace off a Maya node path, stripping it, and
    normalising the colons around a namespace. A path is a `|`-separated
    DAG path whose last element may carry `ns:ns:leaf`. */
module Namespace {
  import opened PyStr

  predicate AllColons(s: string) {
    forall i :: 0 <= i < |s| ==> s[i] == ':'
  }

  /** `get_namespace`: the namespace of the last path element, with ":"
      standing for the root namespace. */
  function GetNamespace(name: string): (r: string)
    ensures |r| > 0
    ensures '|' !in r
    ensures ':' !in name ==> r == ":"
  {
    if ':' !in name then ":"
    else
      var ns := BeforeLast(AfterLast(name, '|'), ':');
      if ns == "" then ":" else ns
  }

  /** `get_namespace` reads the last element of `name.split("|")`. */
  lemma GetNamespaceReadsLastElement(name: string)
    requires ':' in name
    ensures var parts := Split(name, '|');
            var ns := BeforeLast(parts[|parts| - 1], ':');
            GetNamespace(name) == if ns == "" then ":" else ns
  {
    SplitLastIsAfterLast(name, '|');
  }

  /** `strip_namespace`: the text after the last ':' (the whole name when
      there is none). */
  function StripNamespace(name: string): (r: string)
    ensures ':' !in r
    ensures |r| <= |name| && name[|name| - |r|..] == r
    ensures ':' !in name ==> r == name
    ensures |r| < |name| ==> name[|name| - |r| - 1] == ':'
  {
    if ':' !in name then name else AfterLast(name, ':')
  }

  /** A leaf in a non-root namespace splits back into that namespace and
      that leaf. */
  lemma NamespaceRoundTrip(ns: string, leaf: string)
    requires ns != "" && '|' !in ns && '|' !in leaf && ':' !in leaf
    ensures GetNamespace(ns + ":" + leaf) == ns
    ensures StripNamespace(ns + ":" + leaf) == leaf
  {
    var name := ns + ":" + leaf;
    assert name[|ns|] == ':';
    assert '|' !in name by {
      forall i | 0 <= i < |name| ensures name[i] != '|' {
        if i < |ns| { assert name[i] == ns[i]; }
        else if i > |ns| { assert name[i] == leaf[i - |ns| - 1]; }
      }
    }
    RpartitionOfJoin(ns, ':', leaf);
  }

  /** A path element without '|' is its namespace, ':' and its short name
      whenever the text before its last ':' is not empty (so "::x" is
      ":" + ":" + "x", with ":" read as the root namespace). */
  lemma NamespaceReconstruction(name: string)
    requires '|' !in name && ':' in name
    requires BeforeLast(name, ':') != ""
    ensures name == GetNamespace(name) + ":" + StripNamespace(name)
  {
  }

  /** Every character of `s` from index `a` up to `b` is ':'. */
  predicate ColonsBetween(s: string, a: int, b: int) {
    forall k :: 0 <= a <= k < b <= |s| ==> s[k] == ':'
  }

  /** The end of the colon run that starts at index `k`. */
  function ColonRunEnd(s: string, k: nat): (r: nat)
    requires k <= |s|
    ensures k <= r <= |s| && ColonsBetween(s, k, r)
    ensures r < |s| ==> s[r] != ':'
    decreases |s| - k
  {
    if k < |s| && s[k] == ':' then ColonRunEnd(s, k + 1) else k
  }

  /** The start of the colon run that ends at index `k`, not going below
      `lo`. */
  function ColonRunStart(s: string, lo: nat, k: nat): (r: nat)
    requires lo <= k <= |s|
    ensures lo <= r <= k && ColonsBetween(s, r, k)
    ensures r > lo ==> s[r - 1] != ':'
    decreases k
  {
    if k > lo && s[k - 1] == ':' then ColonRunStart(s, lo, k - 1) else k
  }

  /** `ns[..i]` and `ns[j..]` are colon runs and `ns[i..j]` has no colon
      at either end. */
  predicate ColonCut(ns: string, i: nat, j: nat) {
    i <= j <= |ns| && ColonsBetween(ns, 0, i) && ColonsBetween(ns, j, |ns|) &&
    (i < j ==> ns[i] != ':' && ns[j - 1] != ':')
  }

  /** Where the leading colon run ends and the trailing one starts; the
      trailing run never reaches back into the leading one, so a text of
      colons only is cut at its end. */
  function OuterColonCut(ns: string): (cut: (nat, nat))
    ensures ColonCut(ns, cut.0, cut.1)
  {
    var i := ColonRunEnd(ns, 0);
    var j := ColonRunStart(ns, i, |ns|);
    (i, j)
  }

  /** `strip_outer_colons`, i.e. `re.sub(r'^:+|:+$', '', ns)`: the leading
      and the trailing run of colons are removed. */
  function StripOuterColons(ns: string): (r: string)
    ensures exists i: nat, j: nat :: ColonCut(ns, i, j) && r == ns[i..j]
    ensures |r| == 0 || (r[0] != ':' && r[|r| - 1] != ':')
  {
    var cut := OuterColonCut(ns);
    var r := ns[cut.0..cut.1];
    assert |r| > 0 ==> r[0] == ns[cut.0] && r[|r| - 1] == ns[cut.1 - 1];
    r
  }

  /** Only one text has no colon at either end and sits between two colon
      runs of `ns` while keeping a non-colon of `ns`, so `StripOuterColons`
      is fully determined. */
  lemma StripOuterColonsUnique(ns: string, i: nat, j: nat, k: nat)
    requires ColonCut(ns, i, j)
    requires i <= k < j && ns[k] != ':'
    ensures StripOuterColons(ns) == ns[i..j]
  {
    var cut := OuterColonCut(ns);
    SameCut(ns, i, j, cut.0, cut.1, k);
  }

  /** Two colon cuts that keep the same non-colon are the same cut. */
  lemma SameCut(ns: string, i: nat, j: nat, i': nat, j': nat, k: nat)
    requires ColonCut(ns, i, j) && ColonCut(ns, i', j')
    requires i <= k < j && ns[k] != ':'
    ensures i == i' && j == j'
  {
    assert i' <= k < j';
  }

  lemma StripOuterColonsIdempotent(ns: string)
    ensures StripOuterColons(StripOuterColons(ns)) == StripOuterColons(ns)
  {
    var r := StripOuterColons(ns);
    if |r| > 0 {
      assert r[0..|r|] == r;
      StripOuterColonsUnique(r, 0, |r|, 0);
    }
  }

  /** `add_outer_colons`: the stripped namespace wrapped in single colons. */
  function AddOuterColons(ns: string): (r: string)
    ensures |r| >= 2 && r[0] == ':' && r[|r| - 1] == ':'
    ensures r[1..|r| - 1] == StripOuterColons(ns)
  {
    ":" + StripOuterColons(ns) + ":"
  }

  /** Adding and then stripping the outer colons gives the stripped
      namespace, and adding them twice is adding them once. */
  lemma OuterColonsRoundTrip(ns: string)
    ensures StripOuterColons(AddOuterColons(ns)) == StripOuterColons(ns)
    ensures AddOuterColons(AddOuterColons(ns)) == AddOuterColons(ns)
  {
    var t := StripOuterColons(ns);
    var w := AddOuterColons(ns);
    if |t| == 0 {
      assert AllColons(w) by {
        assert w == "::";
      }
      AllColonsStripped(w);
    } else {
      assert w[0] == ':' && w[|t| + 1] == ':';
      assert w[1] == t[0] && w[|t|] == t[|t| - 1];
      assert w[1..|t| + 1] == t;
      StripOuterColonsUnique(w, 1, |t| + 1, 1);
    }
  }

  /** A text of colons only strips to "". */
  lemma AllColonsStripped(ns: string)
    requires AllColons(ns)
    ensures StripOuterColons(ns) == ""
  {
    var cut := OuterColonCut(ns);
  }
}
