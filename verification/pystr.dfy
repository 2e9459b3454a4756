/** The part of Python's `str` that the rigging utilities rely on, for
    newline-free ASCII text: case mapping, `title`, `find`, `replace`,
    `split`, `rpartition`, `startswith`, and decimal digit runs. */
module PyStr {

  // ---------------------------------------------------------------------
  // Characters
  // ---------------------------------------------------------------------

  predicate IsUpper(c: char) { 'A' <= c <= 'Z' }
  predicate IsLower(c: char) { 'a' <= c <= 'z' }
  /** Python's "cased" characters, restricted to ASCII: the letters. */
  predicate IsCased(c: char) { IsUpper(c) || IsLower(c) }
  predicate IsDigit(c: char) { '0' <= c <= '9' }

  function ToLower(c: char): char {
    if IsUpper(c) then (c as int + 32) as char else c
  }

  function ToUpper(c: char): char {
    if IsLower(c) then (c as int - 32) as char else c
  }

  predicate NoUpper(s: string) {
    forall i :: 0 <= i < |s| ==> !IsUpper(s[i])
  }

  /** `s.lower()` */
  function Lower(s: string): (r: string)
    ensures |r| == |s|
    ensures NoUpper(r)
    ensures forall i :: 0 <= i < |s| ==> r[i] == ToLower(s[i])
  {
    seq(|s|, i requires 0 <= i < |s| => ToLower(s[i]))
  }

  /** `s.title()`: a letter is upper-cased exactly when the character before
      it is not a letter (or there is none); every other letter is
      lower-cased; other characters are kept. */
  function Title(s: string): string {
    TitleFrom(s, false)
  }

  function TitleFrom(s: string, prevCased: bool): (r: string)
    ensures |r| == |s|
    ensures forall i :: 0 <= i < |s| && !IsCased(s[i]) ==> r[i] == s[i]
    ensures forall i :: 0 <= i < |s| && IsCased(s[i]) ==> IsCased(r[i])
    decreases |s|
  {
    if |s| == 0 then ""
    else
      var c := if !IsCased(s[0]) then s[0]
               else if prevCased then ToLower(s[0])
               else ToUpper(s[0]);
      [c] + TitleFrom(s[1..], IsCased(s[0]))
  }

  // ---------------------------------------------------------------------
  // Searching
  // ---------------------------------------------------------------------

  predicate StartsWith(s: string, p: string) {
    |p| <= |s| && s[..|p|] == p
  }

  predicate OccursAt(s: string, p: string, j: int) {
    0 <= j && j + |p| <= |s| && s[j..j + |p|] == p
  }

  /** `p in s` */
  predicate Contains(s: string, p: string)
    decreases |s|
  {
    if |s| < |p| then false
    else if s[..|p|] == p then true
    else |s| > 0 && Contains(s[1..], p)
  }

  lemma OccursAtShift(s: string, p: string)
    requires |s| > 0
    ensures forall j :: 1 <= j ==> (OccursAt(s, p, j) <==> OccursAt(s[1..], p, j - 1))
  {
    forall j | 1 <= j
      ensures OccursAt(s, p, j) <==> OccursAt(s[1..], p, j - 1)
    {
      if j + |p| <= |s| {
        var t := s[1..];
        forall i | j <= i < j + |p|
          ensures t[i - 1] == s[i]
        {
        }
        assert t[j - 1..j - 1 + |p|] == s[j..j + |p|];
      }
    }
  }

  /** `s.find(p)`: the lowest index at which `p` occurs, or -1. */
  function Find(s: string, p: string): (r: int)
    ensures r < 0 <==> !Contains(s, p)
    ensures r < 0 ==> r == -1
    ensures r >= 0 ==> OccursAt(s, p, r)
    ensures r >= 0 ==> forall j :: 0 <= j < r ==> !OccursAt(s, p, j)
    decreases |s|
  {
    if |s| < |p| then -1
    else if s[..|p|] == p then 0
    else if |s| == 0 then -1
    else
      var k := Find(s[1..], p);
      OccursAtShift(s, p);
      if k < 0 then -1 else k + 1
  }

  lemma ContainsIffOccurs(s: string, p: string)
    ensures Contains(s, p) <==> exists j :: OccursAt(s, p, j)
  {
    var r := Find(s, p);
    if r >= 0 {
      assert OccursAt(s, p, r);
    } else if exists j :: OccursAt(s, p, j) {
      var j :| OccursAt(s, p, j);
      ContainsAt(s, p, j);
    }
  }

  lemma ContainsAt(s: string, p: string, j: nat)
    requires OccursAt(s, p, j)
    ensures Contains(s, p)
    decreases j
  {
    if s[..|p|] != p {
      assert j > 0;
      OccursAtShift(s, p);
      ContainsAt(s[1..], p, j - 1);
    }
  }

  lemma ContainsSuffix(s: string, p: string, k: nat)
    requires k <= |s|
    requires Contains(s[k..], p)
    ensures Contains(s, p)
  {
    ContainsIffOccurs(s[k..], p);
    var j :| OccursAt(s[k..], p, j);
    assert s[k..][j..j + |p|] == s[k + j..k + j + |p|];
    ContainsAt(s, p, k + j);
  }

  /** A pattern whose first character never appears is not contained. */
  lemma {:induction false} ContainsNeedsHead(s: string, p: string)
    requires |p| > 0 && p[0] !in s
    ensures !Contains(s, p)
    decreases |s|
  {
    if |s| >= |p| {
      assert s[..|p|][0] == s[0];
      ContainsNeedsHead(s[1..], p);
    }
  }

  /** A two-character pattern is absent when no `a` is followed by `b`. */
  lemma PairAbsent(s: string, a: char, b: char)
    requires forall j :: 0 <= j < |s| - 1 && s[j] == a ==> s[j + 1] != b
    ensures !Contains(s, [a, b])
  {
    ContainsIffOccurs(s, [a, b]);
    forall j ensures !OccursAt(s, [a, b], j) {
      if 0 <= j && j + 2 <= |s| {
        assert s[j..j + 2][0] == s[j] && s[j..j + 2][1] == s[j + 1];
      }
    }
  }

  /** `Find` is pinned down by one occurrence and none before it. */
  lemma FindIs(s: string, p: string, j: nat)
    requires OccursAt(s, p, j)
    requires forall i :: 0 <= i < j ==> !OccursAt(s, p, i)
    ensures Find(s, p) == j
  {
    ContainsAt(s, p, j);
  }

  /** One differing character rules out an occurrence. */
  lemma MismatchInside(s: string, p: string, j: nat, k: nat)
    requires k < |p| && j + k < |s| && s[j + k] != p[k]
    ensures !OccursAt(s, p, j)
  {
    if j + |p| <= |s| {
      assert s[j..j + |p|][k] == s[j + k];
    }
  }

  lemma MismatchAt(s: string, p: string, j: nat)
    requires |p| > 0 && j < |s| && s[j] != p[0]
    ensures !OccursAt(s, p, j)
  {
    if j + |p| <= |s| {
      assert s[j..j + |p|][0] == s[j];
    }
  }

  // ---------------------------------------------------------------------
  // Rewriting
  // ---------------------------------------------------------------------

  /** `s.replace(pat, rep)`: every occurrence, found left to right without
      overlap, is replaced. */
  function Replace(s: string, pat: string, rep: string): string
    requires |pat| > 0
    decreases |s|
  {
    if |s| < |pat| then s
    else if s[..|pat|] == pat then rep + Replace(s[|pat|..], pat, rep)
    else [s[0]] + Replace(s[1..], pat, rep)
  }

  /** `s.replace(pat, rep, 1)`: only the first occurrence is replaced. */
  function ReplaceFirst(s: string, pat: string, rep: string): (r: string)
    ensures !Contains(s, pat) ==> r == s
    ensures StartsWith(s, pat) ==> r == rep + s[|pat|..]
  {
    var j := Find(s, pat);
    if j < 0 then s
    else
      assert StartsWith(s, pat) ==> j == 0 by {
        if StartsWith(s, pat) { FindIs(s, pat, 0); }
      }
      s[..j] + rep + s[j + |pat|..]
  }

  lemma ReplaceAbsent(s: string, pat: string, rep: string)
    requires |pat| > 0
    requires !Contains(s, pat)
    ensures Replace(s, pat, rep) == s
    decreases |s|
  {
    if |s| >= |pat| {
      ReplaceAbsent(s[1..], pat, rep);
    }
  }

  /** Splicing behind a first character. */
  lemma ConsSplice(s: string, k: nat, n: nat, rep: string, tail: string)
    requires |s| > 0 && k + n <= |s| - 1
    ensures [s[0]] + (s[1..][..k] + rep + tail) == s[..k + 1] + rep + tail
    ensures s[1..][k + n..] == s[k + 1 + n..]
  {
    assert s[..k + 1] == [s[0]] + s[1..][..k];
  }

  /** An occurrence at `j > 0` with none before it is an occurrence at
      `j - 1` of the tail, again with none before it. */
  lemma FirstOccurrenceShift(s: string, pat: string, j: nat)
    requires j > 0 && OccursAt(s, pat, j)
    requires forall i :: 0 <= i < j ==> !OccursAt(s, pat, i)
    ensures |s| > 0 && !StartsWith(s, pat)
    ensures OccursAt(s[1..], pat, j - 1)
    ensures forall i :: 0 <= i < j - 1 ==> !OccursAt(s[1..], pat, i)
  {
    assert !OccursAt(s, pat, 0);
    OccursAtShift(s, pat);
    forall i | 0 <= i < j - 1 ensures !OccursAt(s[1..], pat, i) {
      assert !OccursAt(s, pat, i + 1);
    }
  }

  /** `Replace` rewrites the first occurrence first, whatever index it is
      at. */
  lemma {:induction false} ReplaceAtFirst(s: string, pat: string, rep: string, j: nat)
    requires |pat| > 0 && OccursAt(s, pat, j)
    requires forall i :: 0 <= i < j ==> !OccursAt(s, pat, i)
    ensures Replace(s, pat, rep) == s[..j] + rep + Replace(s[j + |pat|..], pat, rep)
    decreases j
  {
    if j == 0 {
      ReplaceAtHead(s, pat, rep);
    } else {
      FirstOccurrenceShift(s, pat, j);
      ReplaceAtFirst(s[1..], pat, rep, j - 1);
      ReplaceStep(s, pat, rep, j);
    }
  }

  lemma ReplaceAtHead(s: string, pat: string, rep: string)
    requires |pat| > 0 && OccursAt(s, pat, 0)
    ensures Replace(s, pat, rep) == s[..0] + rep + Replace(s[|pat|..], pat, rep)
  {
    assert s[..|pat|] == s[0..|pat|] == pat;
    assert s[..0] + rep == rep;
  }

  /** One character before the first occurrence is copied through. */
  lemma ReplaceStep(s: string, pat: string, rep: string, j: nat)
    requires |pat| > 0 && j > 0 && j + |pat| <= |s| && !StartsWith(s, pat)
    requires var t := s[1..];
             Replace(t, pat, rep) == t[..j - 1] + rep + Replace(t[j - 1 + |pat|..], pat, rep)
    ensures Replace(s, pat, rep) == s[..j] + rep + Replace(s[j + |pat|..], pat, rep)
  {
    var t := s[1..];
    assert Replace(s, pat, rep) == [s[0]] + Replace(t, pat, rep);
    ConsSplice(s, j - 1, |pat|, rep, Replace(t[j - 1 + |pat|..], pat, rep));
  }

  /** Every character `c` removed from `s`. */
  function Delete(s: string, c: char): (r: string)
    ensures c !in r
    ensures |r| <= |s|
    decreases |s|
  {
    if |s| == 0 then ""
    else (if s[0] == c then "" else [s[0]]) + Delete(s[1..], c)
  }

  lemma FoundAtStart(s: string, p: string)
    requires Find(s, p) == 0
    ensures StartsWith(s, p)
  {
    assert OccursAt(s, p, 0);
  }

  lemma {:induction false} DeleteAppend(a: string, b: string, c: char)
    ensures Delete(a + b, c) == Delete(a, c) + Delete(b, c)
    decreases |a|
  {
    if |a| > 0 {
      assert (a + b)[0] == a[0];
      assert (a + b)[1..] == a[1..] + b;
      DeleteAppend(a[1..], b, c);
      var h := if a[0] == c then "" else [a[0]];
      calc {
        Delete(a + b, c);
        h + Delete(a[1..] + b, c);
        h + (Delete(a[1..], c) + Delete(b, c));
        (h + Delete(a[1..], c)) + Delete(b, c);
      }
    } else {
      assert a + b == b;
    }
  }

  lemma DeleteAbsent(s: string, c: char)
    requires c !in s
    ensures Delete(s, c) == s
    decreases |s|
  {
    if |s| > 0 {
      DeleteAbsent(s[1..], c);
    }
  }

  /** `s.replace(c, "")` deletes the character `c`. */
  lemma ReplaceByEmptyDeletes(s: string, c: char)
    ensures Replace(s, [c], "") == Delete(s, c)
    decreases |s|
  {
    if |s| > 0 {
      ReplaceByEmptyDeletes(s[1..], c);
    }
  }

  // ---------------------------------------------------------------------
  // split / join on one separator character
  // ---------------------------------------------------------------------

  /** `s.split(sep)` for a one-character separator. */
  function Split(s: string, sep: char): (r: seq<string>)
    ensures |r| >= 1
    ensures forall k :: 0 <= k < |r| ==> sep !in r[k]
    decreases |s|
  {
    if |s| == 0 then [""]
    else
      var rest := Split(s[1..], sep);
      if s[0] == sep then [""] + rest
      else [[s[0]] + rest[0]] + rest[1..]
  }

  /** `sep.join(parts)` */
  function Join(parts: seq<string>, sep: char): string
    decreases |parts|
  {
    if |parts| == 0 then ""
    else if |parts| == 1 then parts[0]
    else parts[0] + [sep] + Join(parts[1..], sep)
  }

  lemma {:induction false} JoinSplit(s: string, sep: char)
    ensures Join(Split(s, sep), sep) == s
    decreases |s|
  {
    if |s| > 0 {
      var rest := Split(s[1..], sep);
      JoinSplit(s[1..], sep);
      if s[0] == sep {
        assert ([""] + rest)[1..] == rest;
      } else if |rest| > 1 {
        var parts := [[s[0]] + rest[0]] + rest[1..];
        assert parts[1..] == rest[1..];
        assert Join(rest, sep) == rest[0] + [sep] + Join(rest[1..], sep);
      }
    }
  }

  lemma {:induction false} SplitAbsent(s: string, sep: char)
    requires sep !in s
    ensures Split(s, sep) == [s]
    decreases |s|
  {
    if |s| > 0 {
      SplitAbsent(s[1..], sep);
      assert [s[0]] + s[1..] == s;
    }
  }

  lemma {:induction false} SplitAfterFirst(x: string, y: string, sep: char)
    requires sep !in x
    ensures Split(x + [sep] + y, sep) == [x] + Split(y, sep)
    decreases |x|
  {
    if |x| == 0 {
      assert (x + [sep] + y)[1..] == y;
    } else {
      var s := x + [sep] + y;
      assert s[0] == x[0] && s[0] != sep;
      assert s[1..] == x[1..] + [sep] + y;
      SplitAfterFirst(x[1..], y, sep);
      var rest := Split(s[1..], sep);
      assert rest == [x[1..]] + Split(y, sep);
      assert Split(s, sep) == [[x[0]] + rest[0]] + rest[1..];
      assert [x[0]] + x[1..] == x;
      assert rest[1..] == Split(y, sep);
    }
  }

  lemma {:induction false} SplitJoin(parts: seq<string>, sep: char)
    requires |parts| >= 1
    requires forall k :: 0 <= k < |parts| ==> sep !in parts[k]
    ensures Split(Join(parts, sep), sep) == parts
    decreases |parts|
  {
    if |parts| == 1 {
      SplitAbsent(parts[0], sep);
    } else {
      SplitJoin(parts[1..], sep);
      SplitAfterFirst(parts[0], Join(parts[1..], sep), sep);
      assert [parts[0]] + parts[1..] == parts;
    }
  }

  /** Number of occurrences of the character `c` in `s`. */
  function Count(s: string, c: char): nat
    decreases |s|
  {
    if |s| == 0 then 0 else (if s[0] == c then 1 else 0) + Count(s[1..], c)
  }

  lemma CountAppend(a: string, b: string, c: char)
    ensures Count(a + b, c) == Count(a, c) + Count(b, c)
    decreases |a|
  {
    if |a| > 0 {
      assert (a + b)[0] == a[0];
      assert (a + b)[1..] == a[1..] + b;
      CountAppend(a[1..], b, c);
    } else {
      assert a + b == b;
    }
  }

  lemma CountAbsent(s: string, c: char)
    requires c !in s
    ensures Count(s, c) == 0
    decreases |s|
  {
    if |s| > 0 {
      CountAbsent(s[1..], c);
    }
  }

  /** Index of the first `c` in `s`, or -1. */
  function FirstIndex(s: string, c: char): (r: int)
    ensures -1 <= r < |s|
    ensures r < 0 <==> c !in s
    ensures r >= 0 ==> s[r] == c && c !in s[..r]
    decreases |s|
  {
    if |s| == 0 then -1
    else if s[0] == c then 0
    else
      var r := FirstIndex(s[1..], c);
      assert r >= 0 ==> s[..r + 1] == [s[0]] + s[1..][..r];
      if r < 0 then -1 else r + 1
  }

  /** `s.split(sep)[0]` is the text before the first `sep`. */
  lemma {:induction false} SplitHead(s: string, sep: char)
    ensures var i := FirstIndex(s, sep);
            Split(s, sep)[0] == if i < 0 then s else s[..i]
    decreases |s|
  {
    if |s| > 0 && s[0] != sep {
      var t := s[1..];
      var i := FirstIndex(t, sep);
      SplitHead(t, sep);
      assert Split(s, sep)[0] == [s[0]] + Split(t, sep)[0];
      if i < 0 {
        assert FirstIndex(s, sep) < 0;
        assert [s[0]] + t == s;
      } else {
        assert FirstIndex(s, sep) == i + 1;
        assert [s[0]] + t[..i] == s[..i + 1];
      }
    } else if |s| > 0 {
      assert FirstIndex(s, sep) == 0 && Split(s, sep)[0] == "";
    }
  }

  // ---------------------------------------------------------------------
  // rpartition / rsplit on one character
  // ---------------------------------------------------------------------

  /** Index of the last `c` in `s`, or -1. */
  function LastIndex(s: string, c: char): (r: int)
    ensures -1 <= r < |s|
    ensures r < 0 <==> c !in s
    ensures r >= 0 ==> s[r] == c && c !in s[r + 1..]
    decreases |s|
  {
    if |s| == 0 then -1
    else if s[|s| - 1] == c then |s| - 1
    else
      var r := LastIndex(s[..|s| - 1], c);
      assert r >= 0 ==> s[r + 1..] == s[..|s| - 1][r + 1..] + [s[|s| - 1]];
      r
  }

  /** `s.rpartition(c)[-1]`: the text after the last `c`, or all of `s`. */
  function AfterLast(s: string, c: char): (r: string)
    ensures c !in r
    ensures |r| <= |s| && s[|s| - |r|..] == r
    ensures c !in s ==> r == s
    ensures |r| < |s| ==> s[|s| - |r| - 1] == c
  {
    var i := LastIndex(s, c);
    if i < 0 then s else s[i + 1..]
  }

  /** `s.rpartition(c)[0]`: the text before the last `c`, or "". */
  function BeforeLast(s: string, c: char): (r: string)
    ensures c !in s ==> r == ""
    ensures c in s ==> s == r + [c] + AfterLast(s, c)
  {
    var i := LastIndex(s, c);
    if i < 0 then "" else s[..i]
  }

  /** Splitting `a + c + b` at its last `c`, when `b` holds no `c`, gives
      back `a` and `b`. */
  lemma RpartitionOfJoin(a: string, c: char, b: string)
    requires c !in b
    ensures AfterLast(a + [c] + b, c) == b
    ensures BeforeLast(a + [c] + b, c) == a
  {
    var s := a + [c] + b;
    var r := AfterLast(s, c);
    assert s[|a|] == c;
    assert s[|a| + 1..] == b;
    assert r == b;
  }

  /** `s.split(c)[-1]` is the text after the last `c`. */
  lemma {:induction false} SplitLastIsAfterLast(s: string, c: char)
    ensures Split(s, c)[|Split(s, c)| - 1] == AfterLast(s, c)
  {
    if c !in s {
      SplitAbsent(s, c);
    } else {
      var b := BeforeLast(s, c);
      var a := AfterLast(s, c);
      JoinSplit(b, c);
      var pb := Split(b, c);
      assert s == Join(pb, c) + [c] + a;
      SplitOfJoinThenLast(pb, a, c);
    }
  }

  lemma {:induction false} SplitOfJoinThenLast(parts: seq<string>, a: string, c: char)
    requires |parts| >= 1
    requires forall k :: 0 <= k < |parts| ==> c !in parts[k]
    requires c !in a
    ensures var r := Split(Join(parts, c) + [c] + a, c); r[|r| - 1] == a
    decreases |parts|
  {
    if |parts| == 1 {
      SplitAfterFirst(parts[0], a, c);
      SplitAbsent(a, c);
    } else {
      var rest := Join(parts[1..], c);
      assert Join(parts, c) + [c] + a == parts[0] + [c] + (rest + [c] + a);
      SplitAfterFirst(parts[0], rest + [c] + a, c);
      SplitOfJoinThenLast(parts[1..], a, c);
    }
  }

  // ---------------------------------------------------------------------
  // Decimal digit runs
  // ---------------------------------------------------------------------

  predicate AllDigits(s: string) {
    forall i :: 0 <= i < |s| ==> IsDigit(s[i])
  }

  function DigitValue(c: char): nat
    requires IsDigit(c)
  {
    c as int - '0' as int
  }

  /** `int(s)` for a run of ASCII digits (leading zeros allowed). */
  function DigitsValue(s: string): nat
    requires AllDigits(s)
    decreases |s|
  {
    if |s| == 0 then 0
    else DigitsValue(s[..|s| - 1]) * 10 + DigitValue(s[|s| - 1])
  }

  /** `str(n)` */
  function NatToString(n: nat): (r: string)
    ensures |r| >= 1 && AllDigits(r)
    decreases n
  {
    var d := ('0' as int + n % 10) as char;
    if n < 10 then [d] else NatToString(n / 10) + [d]
  }

  lemma {:induction false} NatToStringValue(n: nat)
    ensures DigitsValue(NatToString(n)) == n
    decreases n
  {
    var r := NatToString(n);
    assert r[..|r| - 1] == (if n < 10 then "" else NatToString(n / 10));
    if n >= 10 {
      NatToStringValue(n / 10);
    }
  }
}
