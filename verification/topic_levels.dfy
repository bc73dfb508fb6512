/**
 A level-by-level reading of topics and filters, independent of the
 character walk: a topic is its list of '/'-separated levels, '+' stands for
 exactly one level, '#' for all remaining levels (when any topic text
 remains), and every other level must be equal. The character-walking
 matcher and accessor are proved to agree with it.
 */
module TopicLevels {
  import opened CStrings
  import opened Topic
  import opened TopicLaws

  /** Every level of the filter is "+", "#", or free of wildcards. '#' may
      stand anywhere; it ends the comparison wherever it stands. */
  predicate LevelsWellFormed(fs: seq<string>)
  {
    forall i :: 0 <= i < |fs| ==> fs[i] == "+" || fs[i] == "#" || WildcardFree(fs[i])
  }

  /** A filter the level reading applies to. */
  predicate WellFormedFilter(p: string)
  {
    NulFree(p) && LevelsWellFormed(Split(p))
  }

  /** The reference matcher over levels. */
  function LevelsMatch(fs: seq<string>, ts: seq<string>): bool
    requires |fs| >= 1 && |ts| >= 1
    decreases |fs|
  {
    if fs[0] == "#" then ts != [""]
    else (fs[0] == "+" || fs[0] == ts[0]) &&
         (if |fs| == 1 then |ts| == 1 else |ts| > 1 && LevelsMatch(fs[1..], ts[1..]))
  }

  /** Joins levels back with '/'. */
  function Join(levels: seq<string>): string
    requires |levels| >= 1
    decreases |levels|
  {
    if |levels| == 1 then levels[0] else levels[0] + "/" + Join(levels[1..])
  }

  /** Splitting then joining gives back the topic, and no level holds '/':
      `Split` is the '/'-separated reading of a C string. */
  lemma {:induction false} JoinSplit(s: string)
    requires NulFree(s)
    ensures Join(Split(s)) == s
    ensures forall i :: 0 <= i < |Split(s)| ==> '/' !in Split(s)[i]
    decreases |s|
  {
    var k := LevelEnd(s);
    LevelHasNoStop(s);
    if k < |s| {
      JoinSplit(s[k + 1..]);
      assert Split(s)[1..] == Split(s[k + 1..]);
      assert s == s[..k] + "/" + s[k + 1..];
      forall i | 0 <= i < |Split(s)|
        ensures '/' !in Split(s)[i]
      {
        if i > 0 {
          assert Split(s)[i] == Split(s[k + 1..])[i - 1];
        }
      }
    } else {
      assert s[..k] == s;
    }
  }

  /** The only topic with a single empty level is the empty topic. */
  lemma SplitIsEmptyLevel(t: string)
    requires NulFree(t)
    ensures Split(t) == [""] <==> t == ""
  {
    var k := LevelEnd(t);
    if k < |t| {
      assert |Split(t)| >= 2;
    }
  }

  /** Skipping levels past the first one: the skip loop crosses the first
      level and its separator, then continues on the rest. */
  lemma {:induction false} SkipFirstLevel(t: string, index: nat)
    requires NulFree(t) && index > 0
    ensures LevelEnd(t) == |t| ==> SkipLevels(t, index) == |t|
    ensures LevelEnd(t) < |t| ==>
      SkipLevels(t, index) == LevelEnd(t) + 1 + SkipLevels(t[LevelEnd(t) + 1..], index - 1)
    decreases |t|
  {
    LevelEndCons(t);
    if |t| > 0 && t[0] != '/' {
      SkipFirstLevel(t[1..], index);
      if LevelEnd(t) < |t| {
        assert t[1..][LevelEnd(t[1..]) + 1..] == t[LevelEnd(t) + 1..];
      }
    }
  }

  /** The accessor returns level `index` of the topic, or "" when the topic
      has no such level: ("a/b/c", 2) gives "c" and ("a/b/c", 5) gives "". */
  lemma ElementAtIsLevel(t: string, index: nat)
    requires NulFree(t)
    ensures ElementAt(t, index) == if index < |Split(t)| then Split(t)[index] else ""
  {
    GivesLevel(t, index);
  }

  /** Level `index` of the topic, or "" past its last level. */
  function LevelAt(t: string, index: nat): string
  {
    LevelOf(Split(t), index)
  }

  /** Entry `index` of a level list, or "" past its end. */
  function LevelOf(levels: seq<string>, index: nat): string
  {
    if index < |levels| then levels[index] else ""
  }

  lemma {:induction false} GivesLevel(t: string, index: nat)
    requires NulFree(t)
    ensures ElementAt(t, index) == LevelAt(t, index)
    decreases index, 1
  {
    if index == 0 {
      FirstElement(t);
    } else if LevelEnd(t) < |t| {
      LaterLevel(t, index);
    } else {
      LastElement(t, index);
    }
  }

  /** The inductive step: level `index` of `t` is level `index - 1` of what
      follows the first separator. */
  lemma {:induction false} LaterLevel(t: string, index: nat)
    requires NulFree(t) && index > 0 && LevelEnd(t) < |t|
    ensures ElementAt(t, index) == LevelAt(t, index)
    decreases index, 0
  {
    var t' := t[LevelEnd(t) + 1..];
    LaterElement(t, index);
    LevelAtRest(t, index);
    RestNulFree(t, LevelEnd(t) + 1);
    GivesLevel(t', index - 1);
    SameLevel(ElementAt(t, index), ElementAt(t', index - 1), LevelAt(t', index - 1), LevelAt(t, index));
  }

  /** Joins the three equalities of the inductive step. Over plain strings
      the joining needs no function definitions. */
  lemma SameLevel(a: string, b: string, c: string, d: string)
    requires a == b && b == c && d == c
    ensures a == d
  {
  }

  /** Level `index` > 0 of `t` is level `index - 1` of what follows the
      first separator. */
  lemma LevelAtRest(t: string, index: nat)
    requires index > 0 && LevelEnd(t) < |t|
    ensures LevelAt(t, index) == LevelAt(t[LevelEnd(t) + 1..], index - 1)
  {
    SplitShape(t);
    TailElement(Split(t), Split(t[LevelEnd(t) + 1..]), index);
  }

  /** Over plain level lists: dropping the first level shifts every later
      level down by one, and "" past the end stays "". */
  lemma TailElement(fs: seq<string>, rs: seq<string>, index: nat)
    requires 0 < index && |fs| >= 1 && fs[1..] == rs
    ensures LevelOf(fs, index) == LevelOf(rs, index - 1)
  {
    if index < |fs| {
      assert fs[index] == rs[index - 1];
    }
  }

  lemma RestNulFree(t: string, k: nat)
    requires NulFree(t) && k <= |t|
    ensures NulFree(t[k..])
  {
    forall i | 0 <= i < |t| - k
      ensures t[k..][i] != '\0'
    {
      assert t[k..][i] == t[k + i];
    }
  }

  /** Past the last level there is nothing to return. */
  lemma LastElement(t: string, index: nat)
    requires NulFree(t) && index > 0 && LevelEnd(t) == |t|
    ensures ElementAt(t, index) == ""
    ensures |Split(t)| == 1
  {
    SkipFirstLevel(t, index);
    assert t[SkipLevels(t, index)..] == "";
  }

  /** Level `index` > 0 of `t` is level `index - 1` of what follows the
      first separator. */
  lemma LaterElement(t: string, index: nat)
    requires NulFree(t) && index > 0 && LevelEnd(t) < |t|
    ensures ElementAt(t, index) == ElementAt(t[LevelEnd(t) + 1..], index - 1)
    ensures |Split(t)| == 1 + |Split(t[LevelEnd(t) + 1..])|
    ensures Split(t)[1..] == Split(t[LevelEnd(t) + 1..])
  {
    var t' := t[LevelEnd(t) + 1..];
    SkipFirstLevel(t, index);
    assert t[SkipLevels(t, index)..] == t'[SkipLevels(t', index - 1)..];
    SameRestSameElement(t, index, t', index - 1);
  }

  /** Level 0 is what precedes the first separator. */
  lemma FirstElement(t: string)
    requires NulFree(t)
    ensures ElementAt(t, 0) == Split(t)[0]
  {
    assert t[..|t|] == t;
  }

  /** The accessor's result depends only on where the skip loop stopped. */
  lemma SameRestSameElement(t: string, index: nat, t': string, index': nat)
    requires t[SkipLevels(t, index)..] == t'[SkipLevels(t', index')..]
    ensures ElementAt(t, index) == ElementAt(t', index')
  {
  }

  /** Examples of the accessor at work. */
  lemma ElementAtExamples()
    ensures ElementAt("a/b/c", 0) == "a"
    ensures ElementAt("a/b/c", 2) == "c"
    ensures ElementAt("a/b/c", 5) == ""
  {
    SplitExample();
    AbcNulFree();
    ElementAtIsLevel("a/b/c", 0);
    ElementAtIsLevel("a/b/c", 2);
    ElementAtIsLevel("a/b/c", 5);
  }

  lemma AbcNulFree()
    ensures NulFree("a/b/c")
  {
    var t := "a/b/c";
    forall i | 0 <= i < |t|
      ensures t[i] != '\0'
    {
      assert t[i] in {'a', '/', 'b', 'c'};
    }
  }

  lemma SplitExample()
    ensures Split("a/b/c") == ["a", "b", "c"]
  {
    var bc := ['b', '/'] + "c";
    var abc := ['a', '/'] + bc;
    SplitOfC();
    SplitCons('b', "c");
    SplitCons('a', bc);
    assert abc == "a/b/c";
    assert [['a']] + ([['b']] + ["c"]) == ["a", "b", "c"];
  }

  lemma SplitOfC()
    ensures Split("c") == ["c"]
  {
    assert LevelEnd("c") == 1;
  }

  /** A one-character level followed by a separator. */
  lemma SplitCons(x: char, rest: string)
    requires x != '/' && x != '\0'
    ensures Split([x, '/'] + rest) == [[x]] + Split(rest)
  {
    var s := [x, '/'] + rest;
    assert StopFrom(s, 1) == 1;
    assert LevelEnd(s) == 1;
    assert s[..1] == [x] && s[2..] == rest;
  }

  /** The levels after the first one of a well-formed filter still form a
      well-formed filter. */
  lemma RestWellFormed(p: string)
    requires WellFormedFilter(p) && LevelEnd(p) < |p|
    ensures WellFormedFilter(p[LevelEnd(p) + 1..])
  {
    RestNulFree(p, LevelEnd(p) + 1);
    SplitShape(p);
    TailWellFormed(Split(p), Split(p[LevelEnd(p) + 1..]));
  }

  /** Dropping the first level of a well-formed level list keeps it
      well-formed. */
  lemma TailWellFormed(fs: seq<string>, rs: seq<string>)
    requires LevelsWellFormed(fs) && |fs| >= 1 && fs[1..] == rs
    ensures LevelsWellFormed(rs)
  {
    forall i | 0 <= i < |rs|
      ensures rs[i] == "+" || rs[i] == "#" || WildcardFree(rs[i])
    {
      assert rs[i] == fs[i + 1];
    }
  }

  /** The first level of `s` is what precedes its first separator; the
      other levels are those of what follows it. */
  lemma SplitShape(s: string)
    ensures Split(s)[0] == s[..LevelEnd(s)]
    ensures |Split(s)| == 1 <==> LevelEnd(s) == |s|
    ensures LevelEnd(s) < |s| ==> Split(s)[1..] == Split(s[LevelEnd(s) + 1..])
  {
    if LevelEnd(s) == |s| {
      assert s[..|s|] == s;
    }
  }

  /** A '#' level: the match holds iff some topic text remains. */
  lemma HashLevel(p: string, t: string)
    requires WellFormedFilter(p) && NulFree(t) && Split(p)[0] == "#"
    ensures Matches(p, t) <==> LevelsMatch(Split(p), Split(t))
  {
    SplitShape(p);
    assert p[0] == '#';
    SplitIsEmptyLevel(t);
  }

  /** A '+' level: one topic level is consumed, whatever it holds. */
  lemma PlusLevel(p: string, t: string)
    requires WellFormedFilter(p) && NulFree(t) && Split(p)[0] == "+"
    requires LevelEnd(p) < |p| && LevelEnd(t) < |t| ==>
      (Matches(p[2..], t[LevelEnd(t) + 1..]) <==>
       LevelsMatch(Split(p[2..]), Split(t[LevelEnd(t) + 1..])))
    ensures Matches(p, t) <==> LevelsMatch(Split(p), Split(t))
  {
    SplitShape(p);
    SplitShape(t);
    PlusLevelEnd(p);
    PlusSkipsLevel(p, t);
    if LevelEnd(p) < |p| {
      PlusThenSeparator(p, t);
    } else {
      assert p == "+";
      LastPlus(t);
    }
  }

  /** A filter that is just "+" matches exactly the one-level topics. */
  lemma LastPlus(t: string)
    requires NulFree(t)
    ensures Matches("+"[1..], t[LevelEnd(t)..]) <==> LevelsMatch(["+"], Split(t))
  {
    SplitShape(t);
    assert "+"[1..] == "";
    var m := LevelEnd(t);
    if m < |t| {
      assert Peek(t[m..]) == t[m];
    } else {
      assert t[m..] == "";
    }
  }

  /** A '+' followed by a separator: the topic needs a separator after its
      first level, and the rest of the filter compares with what follows. */
  lemma PlusThenSeparator(p: string, t: string)
    requires NulFree(p) && NulFree(t) && |p| > 1 && p[0] == '+' && LevelEnd(p) == 1
    requires LevelEnd(t) < |t| ==>
      (Matches(p[2..], t[LevelEnd(t) + 1..]) <==>
       LevelsMatch(Split(p[2..]), Split(t[LevelEnd(t) + 1..])))
    ensures Matches(p[1..], t[LevelEnd(t)..]) <==> LevelsMatch(Split(p), Split(t))
  {
    PlusSeparatorHead(p);
    SplitShape(t);
    var m := LevelEnd(t);
    if m < |t| {
      SeparatorStep(p[1..], t[m..]);
      assert p[1..][1..] == p[2..];
      assert t[m..][1..] == t[m + 1..];
      PlusLevelStep(Split(p), Split(t));
    } else {
      assert t[m..] == "";
      SeparatorAgainstEnd(p[1..]);
    }
  }

  /** A filter starting "+/": its first level is "+", and the other levels
      are those of what follows the separator. */
  lemma PlusSeparatorHead(p: string)
    requires NulFree(p) && |p| > 1 && p[0] == '+' && LevelEnd(p) == 1
    ensures p[1] == '/' && |p[1..]| > 0 && p[1..][0] == '/'
    ensures Split(p)[0] == "+" && |Split(p)| > 1 && Split(p)[1..] == Split(p[2..])
  {
    SplitShape(p);
    assert p[..1] == "+";
  }

  /** A separator in the filter matches only a separator in the topic. */
  lemma SeparatorStep(a: string, b: string)
    requires |a| > 0 && a[0] == '/' && |b| > 0 && b[0] == '/'
    ensures Matches(a, b) == Matches(a[1..], b[1..])
  {
  }

  /** A separator in the filter never matches the end of the topic. */
  lemma SeparatorAgainstEnd(a: string)
    requires |a| > 0 && a[0] == '/'
    ensures !Matches(a, "")
  {
  }

  /** A "+" level followed by more levels consumes exactly one topic level. */
  lemma PlusLevelStep(fs: seq<string>, ts: seq<string>)
    requires |fs| > 1 && fs[0] == "+" && |ts| >= 1
    ensures LevelsMatch(fs, ts) == (|ts| > 1 && LevelsMatch(fs[1..], ts[1..]))
  {
  }

  /** A literal level: it must equal the topic's level, and both must end
      at the same place. */
  lemma LiteralLevel(p: string, t: string)
    requires WellFormedFilter(p) && NulFree(t) && WildcardFree(Split(p)[0])
    requires LevelEnd(p) < |p| && LevelEnd(p) < |t| ==>
      (Matches(p[LevelEnd(p) + 1..], t[LevelEnd(p) + 1..]) <==>
       LevelsMatch(Split(p[LevelEnd(p) + 1..]), Split(t[LevelEnd(p) + 1..])))
    ensures Matches(p, t) <==> LevelsMatch(Split(p), Split(t))
  {
    SplitShape(p);
    if LevelEnd(p) == |p| {
      LastLiteralLevel(p, t);
    } else {
      InnerLiteralLevel(p, t);
    }
  }

  /** A filter that is one literal level matches only that very topic. */
  lemma LastLiteralLevel(p: string, t: string)
    requires NulFree(p) && NulFree(t) && WildcardFree(p) && LevelEnd(p) == |p|
    ensures Matches(p, t) <==> LevelsMatch(Split(p), Split(t))
  {
    SplitShape(p);
    SplitShape(t);
    assert p[..|p|] == p;
    WildcardFreeMatchesIffEqual(p, t);
    if |Split(t)| == 1 {
      assert t[..|t|] == t;
    }
  }

  /** A literal level followed by a separator: the topic's first level must
      be the same text, followed by a separator too. */
  lemma InnerLiteralLevel(p: string, t: string)
    requires NulFree(p) && NulFree(t) && WildcardFree(Split(p)[0]) && LevelEnd(p) < |p|
    requires LevelEnd(p) < |t| ==>
      (Matches(p[LevelEnd(p) + 1..], t[LevelEnd(p) + 1..]) <==>
       LevelsMatch(Split(p[LevelEnd(p) + 1..]), Split(t[LevelEnd(p) + 1..])))
    ensures Matches(p, t) <==> LevelsMatch(Split(p), Split(t))
  {
    LiteralHeadMatches(p, t);
    NotWildcardLevel(Split(p)[0]);
    LiteralHeadLevels(p, t);
  }

  /** The character side of a literal first level: the topic's first level
      must be the same text, and then the rests must match. */
  lemma LiteralHeadMatches(p: string, t: string)
    requires NulFree(p) && NulFree(t) && WildcardFree(Split(p)[0]) && LevelEnd(p) < |p|
    ensures Matches(p, t) <==>
      (LevelEnd(t) < |t| && t[..LevelEnd(t)] == p[..LevelEnd(p)]) &&
      Matches(p[LevelEnd(p) + 1..], t[LevelEnd(p) + 1..])
    ensures LevelEnd(t) < |t| && t[..LevelEnd(t)] == p[..LevelEnd(p)] ==> LevelEnd(p) < |t|
  {
    SplitShape(p);
    LiteralThenSeparator(p, t);
    SameFirstLevel(p, t);
  }

  /** The level side of a literal first level: the same condition on the
      first levels, and then the remaining levels must match. */
  lemma LiteralHeadLevels(p: string, t: string)
    requires Split(p)[0] != "#" && Split(p)[0] != "+" && LevelEnd(p) < |p|
    ensures LevelsMatch(Split(p), Split(t)) <==>
      (LevelEnd(t) < |t| && t[..LevelEnd(t)] == p[..LevelEnd(p)]) &&
      LevelsMatch(Split(p[LevelEnd(p) + 1..]), Split(t[LevelEnd(p) + 1..]))
  {
    HeadSplit(p, t);
    LiteralLevelsMatch(Split(p), Split(t));
  }

  /** How the first levels of a filter with more levels and of a topic
      compare, and what the remaining levels are. */
  lemma HeadSplit(p: string, t: string)
    requires LevelEnd(p) < |p|
    ensures |Split(p)| > 1 && Split(p)[1..] == Split(p[LevelEnd(p) + 1..])
    ensures (Split(p)[0] == Split(t)[0] && |Split(t)| > 1) <==>
      (LevelEnd(t) < |t| && t[..LevelEnd(t)] == p[..LevelEnd(p)])
    ensures LevelEnd(t) < |t| && t[..LevelEnd(t)] == p[..LevelEnd(p)] ==>
      Split(t)[1..] == Split(t[LevelEnd(p) + 1..])
  {
    var k, m := LevelEnd(p), LevelEnd(t);
    SplitShape(p);
    SplitShape(t);
    if m < |t| && t[..m] == p[..k] {
      assert m == |t[..m]| == k;
    }
  }

  /** The level side of a literal first level. */
  lemma LiteralLevelsMatch(fs: seq<string>, ts: seq<string>)
    requires |fs| > 1 && |ts| >= 1 && fs[0] != "#" && fs[0] != "+"
    ensures LevelsMatch(fs, ts) <==> fs[0] == ts[0] && |ts| > 1 && LevelsMatch(fs[1..], ts[1..])
  {
  }

  /** A level without wildcard characters is neither wildcard level. */
  lemma NotWildcardLevel(s: string)
    requires WildcardFree(s)
    ensures s != "#" && s != "+"
  {
    assert "#"[0] == '#' && "+"[0] == '+';
  }

  /** The character side of a literal level followed by a separator. */
  lemma LiteralThenSeparator(p: string, t: string)
    requires NulFree(p) && WildcardFree(p[..LevelEnd(p)]) && LevelEnd(p) < |p|
    ensures Matches(p, t) <==>
      LevelEnd(p) < |t| && t[..LevelEnd(p)] == p[..LevelEnd(p)] && t[LevelEnd(p)] == '/' &&
      Matches(p[LevelEnd(p) + 1..], t[LevelEnd(p) + 1..])
  {
    SeparatedHead(p);
    LiteralEndingInSeparator(p, t, LevelEnd(p));
  }

  /** The first level of a filter together with the separator after it. */
  lemma SeparatedHead(p: string)
    requires NulFree(p) && WildcardFree(p[..LevelEnd(p)]) && LevelEnd(p) < |p|
    ensures p[LevelEnd(p)] == '/'
    ensures WildcardFree(p[..LevelEnd(p) + 1]) && NulFree(p[..LevelEnd(p) + 1])
  {
    var k := LevelEnd(p);
    assert p[k] == '/';
    PrefixNulFree(p, k + 1);
    WildcardFreeExtend(p, k);
  }

  lemma PrefixNulFree(p: string, n: nat)
    requires NulFree(p) && n <= |p|
    ensures NulFree(p[..n])
  {
    forall i | 0 <= i < n
      ensures p[..n][i] != '\0'
    {
      assert p[..n][i] == p[i];
    }
  }

  lemma WildcardFreeExtend(p: string, k: nat)
    requires k < |p| && WildcardFree(p[..k]) && p[k] != '+' && p[k] != '#'
    ensures WildcardFree(p[..k + 1])
  {
    var q := p[..k + 1];
    forall i | 0 <= i < |q|
      ensures q[i] != '+' && q[i] != '#'
    {
      if i < k {
        assert q[i] == p[..k][i];
      }
    }
  }

  /** A literal head ending in a separator needs the same text and a
      separator in the topic. */
  lemma LiteralEndingInSeparator(p: string, t: string, k: nat)
    requires k < |p| && p[k] == '/' && WildcardFree(p[..k + 1]) && NulFree(p[..k + 1])
    ensures Matches(p, t) <==>
      k < |t| && t[..k] == p[..k] && t[k] == '/' && Matches(p[k + 1..], t[k + 1..])
  {
    var q, r := p[..k + 1], p[k + 1..];
    assert p == q + r;
    LiteralPrefix(q, r, t);
    assert q == p[..k] + [p[k]];
    if k + 1 <= |t| {
      assert t[..k + 1] == t[..k] + [t[k]];
    }
  }

  /** A topic whose head spells the filter's first level and then a
      separator has that same first level. */
  lemma SameFirstLevel(p: string, t: string)
    requires NulFree(t) && LevelEnd(p) < |p|
    ensures (LevelEnd(p) < |t| && t[..LevelEnd(p)] == p[..LevelEnd(p)] && t[LevelEnd(p)] == '/') <==>
      (LevelEnd(t) < |t| && t[..LevelEnd(t)] == p[..LevelEnd(p)])
    ensures LevelEnd(t) < |t| && t[..LevelEnd(t)] == p[..LevelEnd(p)] ==> LevelEnd(t) == LevelEnd(p)
  {
    var k := LevelEnd(p);
    if k < |t| && t[..k] == p[..k] && t[k] == '/' {
      SpelledLevel(p, t);
    }
  }

  /** A topic spelling out the filter's first level and then a separator
      has a first level of the same length. */
  lemma SpelledLevel(p: string, t: string)
    requires LevelEnd(p) < |t| && t[..LevelEnd(p)] == p[..LevelEnd(p)] && t[LevelEnd(p)] == '/'
    ensures LevelEnd(t) == LevelEnd(p)
  {
    var k := LevelEnd(p);
    LevelHasNoStop(p);
    forall i | 0 <= i < k
      ensures t[i] != '/' && t[i] != '\0'
    {
      assert t[..k][i] == p[..k][i];
    }
    LevelEndIsFirstStop(t, k);
  }

  /** For well-formed filters and NUL-free topics the character walk is the
      level reading: '+' is exactly one (possibly empty) level, '#' is the
      rest of the topic provided some text remains, literal levels compare
      whole, and both sides must run out of levels together. */
  lemma {:induction false} MatchesIffLevelsMatch(p: string, t: string)
    requires WellFormedFilter(p) && NulFree(t)
    ensures Matches(p, t) <==> LevelsMatch(Split(p), Split(t))
    decreases |p|, 1
  {
    SplitShape(p);
    if Split(p)[0] == "#" {
      HashLevel(p, t);
    } else if Split(p)[0] == "+" {
      PlusCase(p, t);
    } else {
      LiteralCase(p, t);
    }
  }

  lemma {:induction false} PlusCase(p: string, t: string)
    requires WellFormedFilter(p) && NulFree(t) && Split(p)[0] == "+"
    ensures Matches(p, t) <==> LevelsMatch(Split(p), Split(t))
    decreases |p|, 0
  {
    if LevelEnd(p) < |p| && LevelEnd(t) < |t| {
      PlusRest(p);
      MatchesIffLevelsMatch(p[2..], t[LevelEnd(t) + 1..]);
    }
    PlusLevel(p, t);
  }

  /** After a leading "+/" the rest of the filter is well formed. */
  lemma PlusRest(p: string)
    requires WellFormedFilter(p) && Split(p)[0] == "+" && LevelEnd(p) < |p|
    ensures |p| >= 2 && WellFormedFilter(p[2..])
  {
    PlusLevelEnd(p);
    RestWellFormed(p);
  }

  /** A first level "+" ends after one character. */
  lemma PlusLevelEnd(p: string)
    requires Split(p)[0] == "+"
    ensures LevelEnd(p) == 1 && p[0] == '+'
  {
    SplitShape(p);
    assert p[..LevelEnd(p)] == "+";
  }

  lemma {:induction false} LiteralCase(p: string, t: string)
    requires WellFormedFilter(p) && NulFree(t) && Split(p)[0] != "+" && Split(p)[0] != "#"
    ensures Matches(p, t) <==> LevelsMatch(Split(p), Split(t))
    decreases |p|, 0
  {
    var k := LevelEnd(p);
    if k < |p| && k < |t| {
      RestWellFormed(p);
      MatchesIffLevelsMatch(p[k + 1..], t[k + 1..]);
    }
    assert WildcardFree(Split(p)[0]);
    LiteralLevel(p, t);
  }
}
