/**
 The topic matcher and the topic element accessor.

 Both walk C strings one character at a time. `Matches` is the recursive
 reading of the matcher's `while (true) switch (*p)` loop, one call per
 iteration; `TopicMatches` is the loop itself, proved to compute the same
 answer. `ElementAt` and `GetTopicElement` do the same for the accessor.
 */
module Topic {
  import opened CStrings

  /** The length of the level at the start of `s`: the characters before the
      first '/' or NUL, i.e. how far `while (*t && *t != '/') ++t;` moves. */
  function LevelEnd(s: string): (k: nat)
    ensures k <= |s|
    ensures k < |s| ==> s[k] == '/' || s[k] == '\0'
  {
    StopFrom(s, 0)
  }

  /** The first position at or after `i` holding a '/' or a NUL, or the
      end of `s`: the scan loop started at `i`. */
  function StopFrom(s: string, i: nat): (k: nat)
    requires i <= |s|
    ensures i <= k <= |s|
    ensures k < |s| ==> s[k] == '/' || s[k] == '\0'
    decreases |s| - i
  {
    if i == |s| || s[i] == '\0' || s[i] == '/' then i else StopFrom(s, i + 1)
  }

  /** Scanning from `i + 1` is scanning the string without its first
      character from `i`. */
  lemma {:induction false} StopFromShift(s: string, i: nat)
    requires 0 < |s| && i < |s|
    ensures StopFrom(s, i + 1) == 1 + StopFrom(s[1..], i)
    decreases |s| - i
  {
    if i + 1 < |s| && s[i + 1] != '\0' && s[i + 1] != '/' {
      StopFromShift(s, i + 1);
    }
  }

  /** The scan one character at a time: a level ends at once on a '/' or
      NUL, and otherwise one character later than the level of the rest. */
  lemma LevelEndCons(s: string)
    ensures LevelEnd(s) == if Peek(s) == '\0' || Peek(s) == '/' then 0 else 1 + LevelEnd(s[1..])
  {
    if Peek(s) != '\0' && Peek(s) != '/' {
      StopFromShift(s, 0);
    }
  }

  /** A character that is neither a separator nor a NUL belongs to the
      level. */
  lemma LevelEndStep(s: string, j: nat)
    requires j < |s| && s[j] != '/' && s[j] != '\0'
    ensures LevelEnd(s[j..]) == 1 + LevelEnd(s[j + 1..])
  {
    LevelEndCons(s[j..]);
    assert s[j..][1..] == s[j + 1..];
  }

  /** No character before the end of the first level is a separator or a
      NUL. */
  lemma {:induction false} LevelHasNoStop(s: string)
    ensures forall i :: 0 <= i < LevelEnd(s) ==> s[i] != '/' && s[i] != '\0'
    decreases |s|
  {
    LevelEndCons(s);
    if LevelEnd(s) > 0 {
      LevelHasNoStop(s[1..]);
      forall i | 0 < i < LevelEnd(s)
        ensures s[i] != '/' && s[i] != '\0'
      {
        assert s[i] == s[1..][i - 1];
      }
    }
  }

  /** The scan both loops share: from position `j`, step over the level's
      characters up to the next '/' or NUL. */
  method ScanLevel(t: string, j: nat) returns (e: nat)
    requires j <= |t|
    ensures e == j + LevelEnd(t[j..])
  {
    e := j;
    while e < |t| && t[e] != '\0' && t[e] != '/'
      invariant j <= e <= |t|
      invariant LevelEnd(t[j..]) == (e - j) + LevelEnd(t[e..])
    {
      LevelEndStep(t, e);
      e := e + 1;
    }
  }

  /** Does filter `p` match topic `t`? One case per branch of the matcher:
      end of filter, multi-level '#', single-level '+', literal character. */
  function Matches(p: string, t: string): bool
    decreases |p|
  {
    var c := Peek(p);
    if c == '\0' then Peek(t) == '\0'
    else if c == '#' then Peek(t) != '\0'
    else if c == '+' then Matches(p[1..], t[LevelEnd(t)..])
    else c == Peek(t) && Matches(p[1..], t[1..])
  }

  /** The matcher as the pointer-walking loop it is written as: every
      iteration either returns or advances the filter position `i`. */
  method TopicMatches(p: string, t: string) returns (b: bool)
    ensures b == Matches(p, t)
  {
    var i, j := 0, 0;
    while true
      invariant 0 <= i <= |p| && 0 <= j <= |t|
      invariant Matches(p[i..], t[j..]) == Matches(p, t)
      decreases |p| - i
    {
      var c := if i < |p| then p[i] else '\0';
      if c == '\0' {
        return j == |t| || t[j] == '\0';
      } else if c == '#' {
        return j < |t| && t[j] != '\0';
      } else if c == '+' {
        ghost var j0 := j;
        j := ScanLevel(t, j);
        assert t[j0..][LevelEnd(t[j0..])..] == t[j..];
        assert p[i..][1..] == p[i + 1..];
        i := i + 1;
      } else {
        if j == |t| || c != t[j] {
          return false;
        }
        assert p[i..][1..] == p[i + 1..];
        assert t[j..][1..] == t[j + 1..];
        i, j := i + 1, j + 1;
      }
    }
  }

  /** Where level `index` of `t` starts: the position the accessor's skip
      loop stops at, after `index` separators or at the end of the string. */
  function SkipLevels(t: string, index: nat): (k: nat)
    ensures k <= |t|
    decreases |t|
  {
    if index == 0 || Peek(t) == '\0' then 0
    else 1 + SkipLevels(t[1..], if t[0] == '/' then index - 1 else index)
  }

  /** The `index`-th '/'-separated level of `t`, or "" when `t` runs out
      first. The result is a slice of `t` holding neither '/' nor NUL. */
  function ElementAt(t: string, index: nat): (r: string)
    ensures forall i :: 0 <= i < |r| ==> r[i] != '/' && r[i] != '\0'
    ensures SkipLevels(t, index) + |r| <= |t|
    ensures r == t[SkipLevels(t, index)..SkipLevels(t, index) + |r|]
  {
    var rest := t[SkipLevels(t, index)..];
    LevelHasNoStop(rest);
    if Peek(rest) == '\0' then "" else rest[..LevelEnd(rest)]
  }

  /** The accessor as its two loops: skip `index` separators, then scan to
      the end of the level. */
  method GetTopicElement(t: string, index: nat) returns (r: string)
    ensures r == ElementAt(t, index)
  {
    var k, n := 0, index;
    while n != 0 && k < |t| && t[k] != '\0'
      invariant 0 <= k <= |t|
      invariant SkipLevels(t[k..], n) + k == SkipLevels(t, index)
      decreases |t| - k
    {
      assert t[k..][1..] == t[k + 1..];
      if t[k] == '/' {
        n := n - 1;
      }
      k := k + 1;
    }
    assert SkipLevels(t[k..], n) == 0;
    ghost var rest := t[SkipLevels(t, index)..];
    assert rest == t[k..];
    if k == |t| || t[k] == '\0' {
      return "";
    }
    var e := ScanLevel(t, k);
    r := t[k..e];
    assert r == rest[..LevelEnd(rest)];
  }

  /** The '/'-separated levels of `s`, the reference reading of a topic. */
  function Split(s: string): (levels: seq<string>)
    ensures |levels| >= 1
    decreases |s|
  {
    var k := LevelEnd(s);
    if k == |s| then [s] else [s[..k]] + Split(s[k + 1..])
  }

  /** True iff `s` holds no wildcard character. */
  predicate WildcardFree(s: string)
  {
    forall i :: 0 <= i < |s| ==> s[i] != '+' && s[i] != '#'
  }
}
