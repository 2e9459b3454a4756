/** The naming helpers of `utils/utils.py`: camelCase / snake_case
    conversion with the FK / IK special cases, trailing-number handling,
    and `uncapitalize`. All text is newline-free ASCII. */
module Utils {
  import opened Wrappers
  import opened PyStr

  // ---------------------------------------------------------------------
  // camel_to_snake
  // ---------------------------------------------------------------------

  /** `re.sub(r'(?<!^)(?=[A-Z])', '_', s)`: an underscore goes in front of
      every upper-case letter except one at the very start. */
  function UnderscoreBeforeCaps(s: string): string {
    if |s| == 0 then "" else [s[0]] + UnderscoreBeforeEachCap(s[1..])
  }

  function UnderscoreBeforeEachCap(s: string): string
    decreases |s|
  {
    if |s| == 0 then ""
    else (if IsUpper(s[0]) then ['_', s[0]] else [s[0]]) + UnderscoreBeforeEachCap(s[1..])
  }

  /** `camel_to_snake`: split before capitals, lower-case, then glue the
      letters of "f_k" and "i_k" back together (so "useFK" gives "use_fk"). */
  function CamelToSnake(camel: string): string {
    var snake := Lower(UnderscoreBeforeCaps(camel));
    var noFk := if Find(snake, "f_k") >= 0 then Replace(snake, "f_k", "fk") else snake;
    if Find(noFk, "i_k") >= 0 then Replace(noFk, "i_k", "ik") else noFk
  }

  /** The output is lower case and holds neither "f_k" nor "i_k". */
  lemma CamelToSnakeShape(camel: string)
    ensures NoUpper(CamelToSnake(camel))
    ensures !Contains(CamelToSnake(camel), "f_k")
    ensures !Contains(CamelToSnake(camel), "i_k")
  {
    var snake := Lower(UnderscoreBeforeCaps(camel));
    var noFk := if Find(snake, "f_k") >= 0 then Replace(snake, "f_k", "fk") else snake;
    if Find(snake, "f_k") >= 0 {
      CollapseRemovesPattern(snake, 'f');
      ReplaceKeepsNoUpper(snake, "f_k", "fk");
    }
    assert !Contains(noFk, "f_k");
    if Find(noFk, "i_k") >= 0 {
      CollapseRemovesPattern(noFk, 'i');
      CollapseKeepsOtherAbsent(noFk, 'i', 'f');
      ReplaceKeepsNoUpper(noFk, "i_k", "ik");
    }
  }

  /** Apart from underscores, the output is the lower-cased input: the
      conversion only inserts and removes underscores. */
  lemma CamelToSnakeOnlyMovesUnderscores(camel: string)
    ensures Delete(CamelToSnake(camel), '_') == Lower(Delete(camel, '_'))
  {
    var spaced := UnderscoreBeforeCaps(camel);
    var snake := Lower(spaced);
    UnderscoreBeforeCapsDelete(camel);
    DeleteLower(spaced);
    assert Delete(snake, '_') == Lower(Delete(camel, '_'));
    var noFk := if Find(snake, "f_k") >= 0 then Replace(snake, "f_k", "fk") else snake;
    if Find(snake, "f_k") >= 0 {
      CollapseDeletesNothingElse(snake, 'f');
    }
    if Find(noFk, "i_k") >= 0 {
      CollapseDeletesNothingElse(noFk, 'i');
    }
  }

  lemma CamelToSnakeExample()
    ensures CamelToSnake("useFK") == "use_fk"
  {
    SpacedExample();
    LowerExample("use_F_K");
    FindExample();
    CollapseExample("use_f_k");
    NoIkExample("use_fk");
  }

  lemma LowerExample(w: string)
    requires w == "use_F_K"
    ensures Lower(w) == "use_f_k"
  {
    var snake := Lower(w);
    assert forall i :: 0 <= i < 7 ==> snake[i] == "use_f_k"[i];
  }

  lemma CollapseExample(w: string)
    requires w == "use_f_k"
    ensures Replace(w, "f_k", "fk") == "use_fk"
  {
    assert w[4..7] == "f_k";
    MismatchAt(w, "f_k", 0);
    MismatchAt(w, "f_k", 1);
    MismatchAt(w, "f_k", 2);
    MismatchAt(w, "f_k", 3);
    ReplaceAtFirst(w, "f_k", "fk", 4);
    assert w[7..] == "";
    assert w[..4] == "use_";
  }

  lemma NoIkExample(w: string)
    requires w == "use_fk"
    ensures Find(w, "i_k") < 0
  {
    ContainsNeedsHead(w, "i_k");
  }

  lemma SpacedExample()
    ensures UnderscoreBeforeCaps("useFK") == "use_F_K"
  {
    var t := "seFK";
    assert t[1..] == "eFK" && t[1..][1..] == "FK" && t[1..][1..][1..] == "K";
    assert UnderscoreBeforeEachCap("K") == "_K";
    assert UnderscoreBeforeEachCap("FK") == "_F_K";
    assert UnderscoreBeforeEachCap("eFK") == "e_F_K";
    assert UnderscoreBeforeEachCap(t) == "se_F_K";
  }

  lemma FindExample()
    ensures Find("use_f_k", "f_k") == 4
  {
    var snake := "use_f_k";
    assert snake[4..7] == "f_k";
    MismatchAt(snake, "f_k", 0);
    MismatchAt(snake, "f_k", 1);
    MismatchAt(snake, "f_k", 2);
    MismatchAt(snake, "f_k", 3);
    FindIs(snake, "f_k", 4);
  }

  // The helper facts below are about the collapse `x_k` -> `xk` that
  // camel_to_snake performs for x = 'f' and x = 'i'.

  lemma ReplaceStep(t: string, pat: string, rep: string)
    requires |pat| > 0 && |t| > 0 && !StartsWith(t, pat)
    ensures Replace(t, pat, rep) == [t[0]] + Replace(t[1..], pat, rep)
  {
    if |t| < |pat| {
      assert Replace(t[1..], pat, rep) == t[1..];
      assert [t[0]] + t[1..] == t;
    }
  }

  lemma ReplaceKeepsNoUpper(s: string, pat: string, rep: string)
    requires |pat| > 0 && NoUpper(s) && NoUpper(rep)
    ensures NoUpper(Replace(s, pat, rep))
    decreases |s|
  {
    if |s| >= |pat| {
      if s[..|pat|] == pat {
        ReplaceKeepsNoUpper(s[|pat|..], pat, rep);
      } else {
        ReplaceKeepsNoUpper(s[1..], pat, rep);
      }
    }
  }

  /** After collapsing, a leading "k" was a leading "k" before. */
  lemma CollapseHeadK(t: string, a: char)
    requires a != 'k'
    requires var r := Replace(t, [a, '_', 'k'], [a, 'k']); |r| > 0 && r[0] == 'k'
    ensures |t| > 0 && t[0] == 'k'
  {
    if |t| > 0 && !StartsWith(t, [a, '_', 'k']) {
      ReplaceStep(t, [a, '_', 'k'], [a, 'k']);
    }
  }

  /** After collapsing, a leading "_k" was a leading "_k" before. */
  lemma CollapseHeadUnderscoreK(t: string, a: char)
    requires a != 'k' && a != '_'
    requires var r := Replace(t, [a, '_', 'k'], [a, 'k']); |r| >= 2 && r[0] == '_' && r[1] == 'k'
    ensures |t| >= 2 && t[0] == '_' && t[1] == 'k'
  {
    var pat := [a, '_', 'k'];
    if |t| > 0 && !StartsWith(t, pat) {
      ReplaceStep(t, pat, [a, 'k']);
      var y := Replace(t[1..], pat, [a, 'k']);
      assert |y| > 0 && y[0] == 'k';
      CollapseHeadK(t[1..], a);
    }
  }

  lemma {:induction false} CollapseRemovesPattern(s: string, a: char)
    requires a != 'k' && a != '_'
    ensures !Contains(Replace(s, [a, '_', 'k'], [a, 'k']), [a, '_', 'k'])
    decreases |s|
  {
    var pat := [a, '_', 'k'];
    var r := Replace(s, pat, [a, 'k']);
    if |s| < 3 {
      assert r == s;
    } else if s[..3] == pat {
      var y := Replace(s[3..], pat, [a, 'k']);
      CollapseRemovesPattern(s[3..], a);
      assert r == [a, 'k'] + y;
      assert r[1..] == ['k'] + y;
      assert r[1..][1..] == y;
      assert !Contains(r[1..], pat) by {
        if |r[1..]| >= 3 { assert r[1..][0] == 'k'; }
      }
      if |r| >= 3 { assert r[1] == 'k'; }
    } else {
      var y := Replace(s[1..], pat, [a, 'k']);
      CollapseRemovesPattern(s[1..], a);
      assert r == [s[0]] + y;
      assert r[1..] == y;
      if |r| >= 3 && r[..3] == pat {
        CollapseHeadUnderscoreK(s[1..], a);
      }
    }
  }

  /** Collapsing `a_k` creates no occurrence of a different `b_k`. */
  lemma {:induction false} CollapseKeepsOtherAbsent(s: string, a: char, b: char)
    requires a != 'k' && a != '_' && b != 'k' && a != b
    requires !Contains(s, [b, '_', 'k'])
    ensures !Contains(Replace(s, [a, '_', 'k'], [a, 'k']), [b, '_', 'k'])
    decreases |s|
  {
    var pat := [a, '_', 'k'];
    var other := [b, '_', 'k'];
    var r := Replace(s, pat, [a, 'k']);
    if |s| < 3 {
      assert r == s;
    } else if s[..3] == pat {
      if Contains(s[3..], other) {
        ContainsSuffix(s, other, 3);
      }
      var y := Replace(s[3..], pat, [a, 'k']);
      CollapseKeepsOtherAbsent(s[3..], a, b);
      assert r == [a, 'k'] + y;
      assert r[1..] == ['k'] + y;
      assert r[1..][1..] == y;
    } else {
      var y := Replace(s[1..], pat, [a, 'k']);
      CollapseKeepsOtherAbsent(s[1..], a, b);
      assert r == [s[0]] + y;
      assert r[1..] == y;
      if |r| >= 3 && r[..3] == other {
        CollapseHeadUnderscoreK(s[1..], a);
      }
    }
  }

  lemma {:induction false} CollapseDeletesNothingElse(s: string, a: char)
    requires a != '_'
    ensures Delete(Replace(s, [a, '_', 'k'], [a, 'k']), '_') == Delete(s, '_')
    decreases |s|
  {
    var pat := [a, '_', 'k'];
    if |s| >= 3 {
      if s[..3] == pat {
        CollapseDeletesNothingElse(s[3..], a);
        var y := Replace(s[3..], pat, [a, 'k']);
        DeleteAppend([a, 'k'], y, '_');
        DeleteAppend(pat, s[3..], '_');
        assert s == pat + s[3..];
      } else {
        CollapseDeletesNothingElse(s[1..], a);
        var y := Replace(s[1..], pat, [a, 'k']);
        DeleteAppend([s[0]], y, '_');
        DeleteAppend([s[0]], s[1..], '_');
        assert s == [s[0]] + s[1..];
      }
    }
  }

  lemma {:induction false} UnderscoreBeforeEachCapDelete(s: string)
    ensures Delete(UnderscoreBeforeEachCap(s), '_') == Delete(s, '_')
    decreases |s|
  {
    if |s| > 0 {
      var h := if IsUpper(s[0]) then ['_', s[0]] else [s[0]];
      UnderscoreBeforeEachCapDelete(s[1..]);
      DeleteAppend(h, UnderscoreBeforeEachCap(s[1..]), '_');
      DeleteAppend([s[0]], s[1..], '_');
      assert s == [s[0]] + s[1..];
    }
  }

  lemma UnderscoreBeforeCapsDelete(s: string)
    ensures Delete(UnderscoreBeforeCaps(s), '_') == Delete(s, '_')
  {
    if |s| > 0 {
      UnderscoreBeforeEachCapDelete(s[1..]);
      DeleteAppend([s[0]], UnderscoreBeforeEachCap(s[1..]), '_');
      DeleteAppend([s[0]], s[1..], '_');
      assert s == [s[0]] + s[1..];
    }
  }

  lemma LowerAppend(a: string, b: string)
    ensures Lower(a + b) == Lower(a) + Lower(b)
  {
  }

  lemma {:induction false} DeleteLower(s: string)
    ensures Delete(Lower(s), '_') == Lower(Delete(s, '_'))
    decreases |s|
  {
    if |s| > 0 {
      DeleteLower(s[1..]);
      assert s == [s[0]] + s[1..];
      LowerAppend([s[0]], s[1..]);
      assert Lower(s)[1..] == Lower(s[1..]);
      var h := if s[0] == '_' then "" else [s[0]];
      LowerAppend(h, Delete(s[1..], '_'));
    }
  }

  // ---------------------------------------------------------------------
  // snake_to_camel
  // ---------------------------------------------------------------------

  /** `if s.find(pat) > 0: s = s.replace(pat, rep)`: the rewrite applies
      only when the first occurrence is past index 0, and then it rewrites
      every occurrence. */
  function RewriteAfterStart(s: string, pat: string, rep: string): string
    requires |pat| > 0
  {
    if Find(s, pat) > 0 then Replace(s, pat, rep) else s
  }

  /** The "fk" -> "FK" and then "ik" -> "IK" rewrites of snake_to_camel. */
  function FkIkRewrite(snake: string): string {
    RewriteAfterStart(RewriteAfterStart(snake, "fk", "FK"), "ik", "IK")
  }

  /** `''.join(x.title() for x in parts)` */
  function TitleAll(parts: seq<string>): string
    decreases |parts|
  {
    if |parts| == 0 then "" else Title(parts[0]) + TitleAll(parts[1..])
  }

  /** `snake_to_camel`: the first "_"-separated word is kept, every later
      word is title-cased, and the words are glued together. */
  function SnakeToCamel(snake: string): string {
    var parts := Split(FkIkRewrite(snake), '_');
    parts[0] + TitleAll(parts[1..])
  }

  lemma {:induction false} TitleAllNoUnderscore(parts: seq<string>)
    requires forall k :: 0 <= k < |parts| ==> '_' !in parts[k]
    ensures '_' !in TitleAll(parts)
    decreases |parts|
  {
    if |parts| > 0 {
      TitleAllNoUnderscore(parts[1..]);
      var t := Title(parts[0]);
      assert forall i :: 0 <= i < |t| ==> t[i] != '_' by {
        forall i | 0 <= i < |t| ensures t[i] != '_' {
          if !IsCased(parts[0][i]) {
            assert t[i] == parts[0][i];
          }
        }
      }
    }
  }

  /** The output holds no underscore. */
  lemma SnakeToCamelNoUnderscore(snake: string)
    ensures '_' !in SnakeToCamel(snake)
  {
    var parts := Split(FkIkRewrite(snake), '_');
    TitleAllNoUnderscore(parts[1..]);
  }

  /** Text without "_" whose "fk" and "ik" occur only at index 0, if at all,
      comes back unchanged. */
  lemma SnakeToCamelIdentity(s: string)
    requires '_' !in s
    requires Find(s, "fk") <= 0 && Find(s, "ik") <= 0
    ensures SnakeToCamel(s) == s
  {
    assert FkIkRewrite(s) == s;
    SplitAbsent(s, '_');
  }

  /** A word without "_", without "f" and with no "i" before a "k" is its
      own camelCase form. */
  lemma SnakeToCamelPlainWord(s: string)
    requires '_' !in s && 'f' !in s
    requires forall j :: 0 <= j < |s| - 1 && s[j] == 'i' ==> s[j + 1] != 'k'
    ensures SnakeToCamel(s) == s
  {
    ContainsNeedsHead(s, "fk");
    PairAbsent(s, 'i', 'k');
    SnakeToCamelIdentity(s);
  }

  /** The output begins with the rewritten text up to its first "_", and is
      exactly that text when there is no "_". */
  lemma SnakeToCamelHead(snake: string)
    ensures var w := FkIkRewrite(snake);
            var i := FirstIndex(w, '_');
            if i < 0 then SnakeToCamel(snake) == w else StartsWith(SnakeToCamel(snake), w[..i])
  {
    var w := FkIkRewrite(snake);
    SplitHead(w, '_');
    if FirstIndex(w, '_') < 0 {
      SplitAbsent(w, '_');
    }
  }

  /** snake_to_camel("use_fk") is "useFk": the word "fk" is upper-cased to
      "FK" and then title-cased back to "Fk". */
  lemma SnakeToCamelTitleUndoesFk()
    ensures SnakeToCamel("use_fk") == "useFk"
  {
    UseFkRewrite();
    UseFkWords("use_FK");
    SnakeToCamelTwoWords("use_fk", "use", "FK");
    TitleOfFk("FK");
  }

  /** "use_FK" is the two words "use" and "FK" around one "_". */
  lemma UseFkWords(w: string)
    requires w == "use_FK"
    ensures w == "use" + ['_'] + "FK" && '_' !in "use" && '_' !in "FK"
  {
  }

  /** "FK".title() is "Fk". */
  lemma TitleOfFk(w: string)
    requires w == "FK"
    ensures "use" + Title(w) == "useFk"
  {
    assert Title(w) == [w[0]] + TitleFrom(w[1..], true);
  }

  /** When the rewritten input is two words around one "_", the result is
      the first word followed by the title-cased second word. */
  lemma SnakeToCamelTwoWords(snake: string, x: string, y: string)
    requires FkIkRewrite(snake) == x + ['_'] + y
    requires '_' !in x && '_' !in y
    ensures SnakeToCamel(snake) == x + Title(y)
  {
    SplitAfterFirst(x, y, '_');
    SplitAbsent(y, '_');
    var parts := Split(FkIkRewrite(snake), '_');
    assert parts == [x, y];
    assert TitleAll(parts[1..]) == Title(y) + TitleAll([]);
  }

  // ---------------------------------------------------------------------
  // snake_to_camel followed by camel_to_snake
  // ---------------------------------------------------------------------

  /** A non-empty word of lower-case ASCII letters. */
  predicate IsLowerWord(w: string) {
    |w| > 0 && forall i :: 0 <= i < |w| ==> IsLower(w[i])
  }

  /** After a letter, title() keeps lower-case letters as they are. */
  lemma {:induction false} TitleFromLower(w: string)
    requires forall i :: 0 <= i < |w| ==> IsLower(w[i])
    ensures TitleFrom(w, true) == w
    decreases |w|
  {
    if |w| > 0 {
      TitleFromLower(w[1..]);
      assert w == [w[0]] + w[1..];
    }
  }

  /** title() of a lower-case word upper-cases its first letter only. */
  lemma TitleLowerWord(w: string)
    requires IsLowerWord(w)
    ensures Title(w) == [ToUpper(w[0])] + w[1..]
  {
    TitleFromLower(w[1..]);
  }

  lemma {:induction false} UnderscoreBeforeEachCapAppend(x: string, y: string)
    ensures UnderscoreBeforeEachCap(x + y) == UnderscoreBeforeEachCap(x) + UnderscoreBeforeEachCap(y)
    decreases |x|
  {
    if |x| > 0 {
      UnderscoreBeforeEachCapAppend(x[1..], y);
      var head := if IsUpper(x[0]) then ['_', x[0]] else [x[0]];
      assert (x + y)[0] == x[0] && (x + y)[1..] == x[1..] + y;
      assert UnderscoreBeforeEachCap(x + y) == head + UnderscoreBeforeEachCap(x[1..] + y);
      assert UnderscoreBeforeEachCap(x) == head + UnderscoreBeforeEachCap(x[1..]);
    } else {
      assert x + y == y;
    }
  }

  /** Text without capitals gets no underscore. */
  lemma {:induction false} UnderscoreBeforeEachCapNoUpper(w: string)
    requires NoUpper(w)
    ensures UnderscoreBeforeEachCap(w) == w
    decreases |w|
  {
    if |w| > 0 {
      UnderscoreBeforeEachCapNoUpper(w[1..]);
      assert w == [w[0]] + w[1..];
    }
  }

  /** A title-cased lower-case word splits back into "_" and the word. */
  lemma TitleWordBack(w: string)
    requires IsLowerWord(w)
    ensures Lower(UnderscoreBeforeEachCap(Title(w))) == "_" + w
  {
    TitleLowerWord(w);
    var t := Title(w);
    assert t[1..] == w[1..];
    UnderscoreBeforeEachCapNoUpper(w[1..]);
    var spaced := UnderscoreBeforeEachCap(t);
    assert spaced == ['_', ToUpper(w[0])] + w[1..];
    assert Lower(spaced) == "_" + w by {
      assert forall i :: 0 <= i < |spaced| ==> ToLower(spaced[i]) == ("_" + w)[i];
    }
  }

  /** The title-cased later words split back into "_" before each word. */
  lemma {:induction false} TitleAllBack(ws: seq<string>)
    requires forall k :: 0 <= k < |ws| ==> IsLowerWord(ws[k])
    ensures Lower(UnderscoreBeforeEachCap(TitleAll(ws))) == if |ws| == 0 then "" else "_" + Join(ws, '_')
    decreases |ws|
  {
    if |ws| > 0 {
      TitleAllBack(ws[1..]);
      TitleAllBackStep(ws);
    }
  }

  /** One more word in front: "_" and the word go in front of the rest. */
  lemma TitleAllBackStep(ws: seq<string>)
    requires |ws| > 0 && IsLowerWord(ws[0])
    requires Lower(UnderscoreBeforeEachCap(TitleAll(ws[1..]))) ==
               if |ws| == 1 then "" else "_" + Join(ws[1..], '_')
    ensures Lower(UnderscoreBeforeEachCap(TitleAll(ws))) == "_" + Join(ws, '_')
  {
    TitleAllStep(ws);
    TitleWordBack(ws[0]);
    if |ws| == 1 {
      AppendEmpty("_" + ws[0]);
    } else {
      JoinCons(ws);
      UnderscoreAssoc(ws[0], Join(ws[1..], '_'));
    }
  }

  lemma AppendEmpty(x: string)
    ensures x + "" == x
  {
  }

  lemma UnderscoreAssoc(w: string, j: string)
    ensures ("_" + w) + ("_" + j) == "_" + (w + ("_" + j))
  {
  }

  /** The underscore and lower-case steps go word by word. */
  lemma TitleAllStep(ws: seq<string>)
    requires |ws| > 0
    ensures Lower(UnderscoreBeforeEachCap(TitleAll(ws))) ==
              Lower(UnderscoreBeforeEachCap(Title(ws[0]))) + Lower(UnderscoreBeforeEachCap(TitleAll(ws[1..])))
  {
    UnderscoreBeforeEachCapAppend(Title(ws[0]), TitleAll(ws[1..]));
    LowerAppend(UnderscoreBeforeEachCap(Title(ws[0])), UnderscoreBeforeEachCap(TitleAll(ws[1..])));
  }

  /** snake_to_camel of lower-case words the fk/ik rewrite leaves alone:
      the first word, then each later word title-cased. */
  lemma SnakeToCamelOfWords(words: seq<string>)
    requires |words| >= 1 && forall k :: 0 <= k < |words| ==> IsLowerWord(words[k])
    requires FkIkRewrite(Join(words, '_')) == Join(words, '_')
    ensures SnakeToCamel(Join(words, '_')) == words[0] + TitleAll(words[1..])
  {
    assert forall k :: 0 <= k < |words| ==> '_' !in words[k] by {
      forall k | 0 <= k < |words| ensures '_' !in words[k] {
        assert forall i :: 0 <= i < |words[k]| ==> IsLower(words[k][i]);
      }
    }
    SplitJoin(words, '_');
  }

  /** camel_to_snake's underscore and lower-case steps undo the title
      casing of the later words. */
  lemma CamelWordsBack(words: seq<string>)
    requires |words| >= 1 && forall k :: 0 <= k < |words| ==> IsLowerWord(words[k])
    ensures Lower(UnderscoreBeforeCaps(words[0] + TitleAll(words[1..]))) == Join(words, '_')
  {
    var w0 := words[0];
    var tail := TitleAll(words[1..]);
    SpacedHead(w0, tail);
    LowerAppend(w0, UnderscoreBeforeEachCap(tail));
    LowerOfLowerWord(w0);
    TitleAllBack(words[1..]);
    if |words| > 1 {
      JoinCons(words);
    }
  }

  lemma JoinCons(words: seq<string>)
    requires |words| > 1
    ensures Join(words, '_') == words[0] + ("_" + Join(words[1..], '_'))
  {
  }

  /** Underscores go only into the title-cased part after a lower-case
      first word. */
  lemma SpacedHead(w0: string, tail: string)
    requires IsLowerWord(w0)
    ensures UnderscoreBeforeCaps(w0 + tail) == w0 + UnderscoreBeforeEachCap(tail)
  {
    SpacedUnfold(w0, tail);
    TailSpaced(w0, tail);
    ConsTail(w0, UnderscoreBeforeEachCap(tail));
  }

  /** No underscore goes before the first character. */
  lemma SpacedUnfold(w0: string, tail: string)
    requires |w0| > 0
    ensures UnderscoreBeforeCaps(w0 + tail) == [w0[0]] + UnderscoreBeforeEachCap(w0[1..] + tail)
  {
    assert (w0 + tail)[1..] == w0[1..] + tail;
  }

  lemma ConsTail(w: string, u: string)
    requires |w| > 0
    ensures [w[0]] + (w[1..] + u) == w + u
  {
    assert w == [w[0]] + w[1..];
  }

  /** The rest of a lower-case word gets no underscore, whatever follows. */
  lemma TailSpaced(w0: string, tail: string)
    requires IsLowerWord(w0)
    ensures UnderscoreBeforeEachCap(w0[1..] + tail) == w0[1..] + UnderscoreBeforeEachCap(tail)
  {
    LowerWordTail(w0);
    UnderscoreBeforeEachCapNoUpper(w0[1..]);
    UnderscoreBeforeEachCapAppend(w0[1..], tail);
  }

  /** A lower-case word has no capital after its first letter. */
  lemma LowerWordTail(w: string)
    requires IsLowerWord(w)
    ensures NoUpper(w[1..])
  {
    var rest := w[1..];
    forall i | 0 <= i < |rest| ensures !IsUpper(rest[i]) {
      assert rest[i] == w[i + 1];
    }
  }

  lemma LowerOfLowerWord(w: string)
    requires IsLowerWord(w)
    ensures Lower(w) == w
  {
    assert forall i :: 0 <= i < |w| ==> Lower(w)[i] == w[i];
  }

  /** Lower-case words joined by single underscores, with no "fk" or "ik"
      past the start and no "f_k" or "i_k", come back from
      snake_to_camel and then camel_to_snake unchanged. */
  lemma SnakeCamelRoundTrip(words: seq<string>)
    requires |words| >= 1 && forall k :: 0 <= k < |words| ==> IsLowerWord(words[k])
    requires var s := Join(words, '_');
             Find(s, "fk") <= 0 && Find(s, "ik") <= 0 && !Contains(s, "f_k") && !Contains(s, "i_k")
    ensures CamelToSnake(SnakeToCamel(Join(words, '_'))) == Join(words, '_')
  {
    var s := Join(words, '_');
    assert FkIkRewrite(s) == s;
    SnakeToCamelOfWords(words);
    CamelWordsBack(words);
  }

  /** The FK rewrite of "use_fk": "fk" first occurs at index 4. */
  lemma UseFkRewrite()
    ensures FkIkRewrite("use_fk") == "use_FK"
  {
    var s := "use_fk";
    assert s[4..6] == "fk";
    MismatchAt(s, "fk", 0);
    MismatchAt(s, "fk", 1);
    MismatchAt(s, "fk", 2);
    MismatchAt(s, "fk", 3);
    FindIs(s, "fk", 4);
    ReplaceAtFirst(s, "fk", "FK", 4);
    assert s[6..] == "";
    assert Replace(s, "fk", "FK") == "use_FK";
    ContainsNeedsHead("use_FK", "ik");
  }

  /** A rewrite that only changes letter case leaves the lower-cased text
      alone. */
  lemma {:induction false} ReplaceKeepsLower(s: string, pat: string, rep: string)
    requires |pat| > 0 && Lower(pat) == Lower(rep)
    ensures Lower(Replace(s, pat, rep)) == Lower(s)
    decreases |s|
  {
    if |s| >= |pat| {
      if s[..|pat|] == pat {
        ReplaceKeepsLower(s[|pat|..], pat, rep);
        LowerAppend(rep, Replace(s[|pat|..], pat, rep));
        LowerAppend(pat, s[|pat|..]);
        assert s == pat + s[|pat|..];
      } else {
        ReplaceKeepsLower(s[1..], pat, rep);
        LowerAppend([s[0]], Replace(s[1..], pat, rep));
        LowerAppend([s[0]], s[1..]);
        assert s == [s[0]] + s[1..];
      }
    }
  }

  /** Upper-casing the two-letter word `xk` to `XK` leaves no `xk` behind. */
  lemma {:induction false} UpcaseRemovesPattern(s: string, x: char, bigX: char)
    requires x != 'k' && bigX != x && bigX != 'k' && x != 'K'
    ensures !Contains(Replace(s, [x, 'k'], [bigX, 'K']), [x, 'k'])
    decreases |s|
  {
    var pat := [x, 'k'];
    var rep := [bigX, 'K'];
    var r := Replace(s, pat, rep);
    if |s| < 2 {
      assert r == s;
    } else if s[..2] == pat {
      var y := Replace(s[2..], pat, rep);
      UpcaseRemovesPattern(s[2..], x, bigX);
      assert r == rep + y;
      assert r[1..] == ['K'] + y;
      assert r[1..][1..] == y;
    } else {
      var t := s[1..];
      var y := Replace(t, pat, rep);
      UpcaseRemovesPattern(t, x, bigX);
      assert r == [s[0]] + y;
      assert |y| >= 1 && (y[0] == bigX || y[0] == t[0]) by {
        if |t| < 2 {
          assert y == t;
        } else if t[..2] == pat {
          assert y == rep + Replace(t[2..], pat, rep);
        } else {
          assert y == [t[0]] + Replace(t[1..], pat, rep);
        }
      }
      assert r[..2] != pat by {
        assert r[0] == s[0] && r[1] == y[0] && t[0] == s[1];
        assert s[..2] == [s[0], s[1]];
      }
      assert r[1..] == y;
    }
  }

  /** Each of the "fk" and "ik" rewrites fires only when the first match is
      past index 0; it then leaves no match behind and changes nothing but
      letter case. */
  lemma CaseRewritesOnlyAfterStart(s: string)
    ensures Find(s, "fk") <= 0 ==> RewriteAfterStart(s, "fk", "FK") == s
    ensures Find(s, "fk") > 0 ==> !Contains(RewriteAfterStart(s, "fk", "FK"), "fk")
    ensures Lower(RewriteAfterStart(s, "fk", "FK")) == Lower(s)
    ensures Find(s, "ik") <= 0 ==> RewriteAfterStart(s, "ik", "IK") == s
    ensures Find(s, "ik") > 0 ==> !Contains(RewriteAfterStart(s, "ik", "IK"), "ik")
    ensures Lower(RewriteAfterStart(s, "ik", "IK")) == Lower(s)
  {
    UpcaseRemovesPattern(s, 'f', 'F');
    assert Lower("fk") == Lower("FK");
    ReplaceKeepsLower(s, "fk", "FK");
    UpcaseRemovesPattern(s, 'i', 'I');
    assert Lower("ik") == Lower("IK");
    ReplaceKeepsLower(s, "ik", "IK");
  }

  // ---------------------------------------------------------------------
  // Trailing numbers
  // ---------------------------------------------------------------------

  /** `re.sub(r'\d+$', '', s)`: the longest prefix not ending in a digit
      whose removed tail is all digits. */
  function StripTrailingNumbers(s: string): (r: string)
    ensures |r| <= |s| && s[..|r|] == r
    ensures |r| == 0 || !IsDigit(r[|r| - 1])
    ensures AllDigits(s[|r|..])
    decreases |s|
  {
    if |s| > 0 && IsDigit(s[|s| - 1]) then
      var r := StripTrailingNumbers(s[..|s| - 1]);
      StripOneMore(s, r);
      r
    else s
  }

  /** One more trailing digit keeps a digit-run split of `s[..|s| - 1]`
      a digit-run split of `s`. */
  lemma StripOneMore(s: string, r: string)
    requires |s| > 0 && IsDigit(s[|s| - 1])
    requires |r| <= |s| - 1 && s[..|s| - 1][..|r|] == r
    requires AllDigits(s[..|s| - 1][|r|..])
    ensures s[..|r|] == r && AllDigits(s[|r|..])
  {
    assert s[|r|..] == s[..|s| - 1][|r|..] + [s[|s| - 1]];
  }

  lemma StripTrailingNumbersIdempotent(s: string)
    ensures StripTrailingNumbers(StripTrailingNumbers(s)) == StripTrailingNumbers(s)
  {
  }

  /** The text matched by `re.search(r'\d+$', s)`, or "" when there is none. */
  function TrailingDigits(s: string): string
    decreases |s|
  {
    if |s| > 0 && IsDigit(s[|s| - 1]) then TrailingDigits(s[..|s| - 1]) + [s[|s| - 1]]
    else ""
  }

  /** `get_trailing_numbers`: the value of the trailing digit run; Python's
      "" for "no run" is `None`. */
  function GetTrailingNumbers(s: string): (r: Option<nat>)
    ensures r.None? <==> |s| == 0 || !IsDigit(s[|s| - 1])
  {
    var run := TrailingDigits(s);
    TrailingDigitsAreStripped(s);
    if |run| == 0 then None else Some(DigitsValue(run))
  }

  /** The digit run the search finds is exactly the tail that stripping
      removes. */
  lemma {:induction false} TrailingDigitsAreStripped(s: string)
    ensures s == StripTrailingNumbers(s) + TrailingDigits(s)
    ensures AllDigits(TrailingDigits(s))
    decreases |s|
  {
    if |s| > 0 && IsDigit(s[|s| - 1]) {
      var t := s[..|s| - 1];
      var c := s[|s| - 1];
      TrailingDigitsAreStripped(t);
      var stem := StripTrailingNumbers(t);
      var run := TrailingDigits(t);
      assert StripTrailingNumbers(s) == stem && TrailingDigits(s) == run + [c];
      assert s == (stem + run) + [c];
      assert (stem + run) + [c] == stem + (run + [c]);
      assert AllDigits(run + [c]) by {
        forall k | 0 <= k < |run| + 1 ensures IsDigit((run + [c])[k]) {
          if k < |run| { assert (run + [c])[k] == run[k]; }
        }
      }
    } else {
      assert s + "" == s;
    }
  }

  /** `get_trailing_numbers` reads back the value of exactly the digits
      `strip_trailing_numbers` removes. */
  lemma TrailingNumberMatchesStrip(s: string)
    ensures var stem := StripTrailingNumbers(s);
            GetTrailingNumbers(s) ==
              if |stem| == |s| then None
              else (TrailingDigitsAreStripped(s); Some(DigitsValue(s[|stem|..])))
  {
    TrailingDigitsAreStripped(s);
    var stem := StripTrailingNumbers(s);
    assert s[|stem|..] == TrailingDigits(s);
  }

  /** A name followed by `str(n)` gives back the name and `n`: the
      renumbering in `rename_nodes` round-trips. */
  lemma {:induction false} TrailingNumberRoundTrip(stem: string, n: nat)
    requires |stem| == 0 || !IsDigit(stem[|stem| - 1])
    ensures StripTrailingNumbers(stem + NatToString(n)) == stem
    ensures GetTrailingNumbers(stem + NatToString(n)) == Some(n)
  {
    var s := stem + NatToString(n);
    var stripped := StripTrailingNumbers(s);
    StripAboveStem(stem, NatToString(n));
    TrailingDigitsAreStripped(s);
    assert s[|stem|..] == NatToString(n);
    NatToStringValue(n);
  }

  lemma {:induction false} StripAboveStem(stem: string, digits: string)
    requires |stem| == 0 || !IsDigit(stem[|stem| - 1])
    requires AllDigits(digits)
    ensures StripTrailingNumbers(stem + digits) == stem
    decreases |digits|
  {
    var s := stem + digits;
    if |digits| == 0 {
      assert s == stem;
    } else {
      assert s[..|s| - 1] == stem + digits[..|digits| - 1];
      StripAboveStem(stem, digits[..|digits| - 1]);
    }
  }

  /** `get_max_trailing_numbers`: 0 when no string ends in digits, otherwise
      the largest trailing number (Python returns it as a float). */
  method GetMaxTrailingNumbers(names: seq<string>) returns (m: nat)
    ensures forall k :: 0 <= k < |names| && GetTrailingNumbers(names[k]).Some? ==>
              GetTrailingNumbers(names[k]).value <= m
    ensures (forall k :: 0 <= k < |names| ==> GetTrailingNumbers(names[k]).None?) ==> m == 0
    ensures (exists k :: 0 <= k < |names| && GetTrailingNumbers(names[k]).Some?) ==>
              exists k :: 0 <= k < |names| && GetTrailingNumbers(names[k]) == Some(m)
  {
    m := 0;
    var found := false;
    var i := 0;
    while i < |names|
      invariant 0 <= i <= |names|
      invariant forall k :: 0 <= k < i && GetTrailingNumbers(names[k]).Some? ==>
                  GetTrailingNumbers(names[k]).value <= m
      invariant found <==> exists k :: 0 <= k < i && GetTrailingNumbers(names[k]).Some?
      invariant !found ==> m == 0
      invariant found ==> exists k :: 0 <= k < i && GetTrailingNumbers(names[k]) == Some(m)
    {
      var t := GetTrailingNumbers(names[i]);
      if t.Some? && (!found || t.value > m) {
        m := t.value;
        found := true;
      }
      i := i + 1;
    }
  }

  // ---------------------------------------------------------------------
  // uncapitalize
  // ---------------------------------------------------------------------

  /** `uncapitalize`: lower-cases the first character; "" raises
      IndexError. */
  function Uncapitalize(s: string): (r: Result<string, PyException>)
    ensures |s| == 0 <==> r == Failure(IndexError)
    ensures r.Success? ==> |r.value| == |s| && r.value[0] == ToLower(s[0]) && r.value[1..] == s[1..]
  {
    if |s| == 0 then Failure(IndexError) else Success([ToLower(s[0])] + s[1..])
  }

  /** Uncapitalizing twice is uncapitalizing once, and it changes nothing
      the lower-cased text can see. */
  lemma UncapitalizeIdempotent(s: string)
    requires |s| > 0
    ensures Uncapitalize(Uncapitalize(s).value) == Uncapitalize(s)
    ensures Lower(Uncapitalize(s).value) == Lower(s)
  {
    var u := Uncapitalize(s).value;
    assert ToLower(ToLower(s[0])) == ToLower(s[0]);
    assert Lower(u)[0] == Lower(s)[0];
  }
}
