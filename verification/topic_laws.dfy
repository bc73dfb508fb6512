/**
 What the character-walking matcher promises, stated over NUL-free strings
 (a C string is NUL-free by construction). Each branch of the matcher gets a
 law: literal characters must agree, '+' skips one level, '#' accepts any
 non-empty rest, and a filter without wildcards matches exactly itself.
 */
module TopicLaws {
  import opened CStrings
  import opened Topic

  /** `LevelEnd` is the position of the first '/' or NUL: any position with
      only ordinary characters before it and a stop character (or the end)
      at it is `LevelEnd`. */
  lemma {:induction false} LevelEndIsFirstStop(s: string, k: nat)
    requires k <= |s|
    requires forall i :: 0 <= i < k ==> s[i] != '/' && s[i] != '\0'
    requires k < |s| ==> s[k] == '/' || s[k] == '\0'
    ensures LevelEnd(s) == k
    decreases k
  {
    LevelEndCons(s);
    if k > 0 {
      LevelEndIsFirstStop(s[1..], k - 1);
    }
  }

  /** A wildcard-free head `q` of the filter must be spelled out by the head
      of the topic, character by character; matching then continues on both
      remainders. */
  lemma {:induction false} LiteralPrefix(q: string, r: string, t: string)
    requires WildcardFree(q) && NulFree(q)
    ensures Matches(q + r, t) <==> |q| <= |t| && t[..|q|] == q && Matches(r, t[|q|..])
    decreases |q|
  {
    if |q| == 0 {
      assert q + r == r;
      assert t[..0] == q;
    } else {
      assert (q + r)[1..] == q[1..] + r;
      assert WildcardFree(q[1..]) && NulFree(q[1..]);
      if |t| > 0 {
        LiteralPrefix(q[1..], r, t[1..]);
        if |q| <= |t| {
          assert t[1..][|q| - 1..] == t[|q|..];
          assert t[..|q|] == [t[0]] + t[1..][..|q| - 1];
          assert q == [q[0]] + q[1..];
        }
      }
    }
  }

  /** An exhausted filter requires an exhausted topic, and a literal
      character must equal the topic's; so a wildcard-free filter matches
      exactly the identical topic ("a/" does not match "a"). */
  lemma WildcardFreeMatchesIffEqual(p: string, t: string)
    requires WildcardFree(p) && NulFree(p) && NulFree(t)
    ensures Matches(p, t) <==> p == t
  {
    LiteralPrefix(p, "", t);
    assert p + "" == p;
    if |p| <= |t| && t[..|p|] == p {
      assert Matches("", t[|p|..]) <==> |t| == |p|;
    }
  }

  /** Reflexivity on published topics: a wildcard-free topic matches itself. */
  lemma ExactTopicMatchesItself(t: string)
    requires WildcardFree(t) && NulFree(t)
    ensures Matches(t, t)
  {
    WildcardFreeMatchesIffEqual(t, t);
  }

  /** After a literal head `q`, '#' accepts whatever follows, provided at
      least one topic character is left; no '/' needs to precede it and the
      rest `r` of the filter is never looked at. */
  lemma MultiLevelAcceptsRest(q: string, r: string, t: string)
    requires WildcardFree(q) && NulFree(q) && NulFree(t)
    ensures Matches(q + "#" + r, t) <==> |q| < |t| && t[..|q|] == q
  {
    assert q + "#" + r == q + ("#" + r);
    LiteralPrefix(q, "#" + r, t);
    if |q| <= |t| {
      HashHead(r, t[|q|..]);
      assert |q| < |t| ==> t[|q|..][0] == t[|q|];
    }
  }

  /** A leading '#' accepts any topic text that is not at its end. */
  lemma HashHead(r: string, u: string)
    ensures Matches("#" + r, u) == (Peek(u) != '\0')
  {
  }

  /** After a literal head `q`, '+' consumes the topic up to, not including,
      the next '/' (possibly nothing) and matching resumes after the '+'. */
  lemma SingleLevelSkipsLevel(q: string, r: string, t: string)
    requires WildcardFree(q) && NulFree(q)
    ensures Matches(q + "+" + r, t) <==>
      |q| <= |t| && t[..|q|] == q && Matches(r, t[|q| + LevelEnd(t[|q|..])..])
  {
    assert q + "+" + r == q + ("+" + r);
    LiteralPrefix(q, "+" + r, t);
    if |q| <= |t| {
      var u := t[|q|..];
      PlusSkipsLevel("+" + r, u);
      assert ("+" + r)[1..] == r;
      assert u[LevelEnd(u)..] == t[|q| + LevelEnd(u)..];
    }
  }

  /** The character side of a '+': the filter goes on past it at the end
      of the topic's first level. */
  lemma PlusSkipsLevel(p: string, t: string)
    requires |p| > 0 && p[0] == '+'
    ensures Matches(p, t) == Matches(p[1..], t[LevelEnd(t)..])
  {
  }

  /** Examples of the matcher at work. */
  lemma MatcherExamples()
    ensures Matches("a/+/c", "a/b/c")
    ensures !Matches("a/+/c", "a/b/x/c")
    ensures Matches("a/+", "a/")
    ensures Matches("a/#", "a/b/c")
    ensures !Matches("a/#", "a")
    ensures !Matches("a/", "a")
    ensures !Matches("#", "")
  {
    PlusExamples();
    PlusAtEndExample();
    HashExamples();
    WildcardFreeMatchesIffEqual("a/", "a");
  }

  lemma PlusExamples()
    ensures Matches("a/+/c", "a/b/c")
    ensures !Matches("a/+/c", "a/b/x/c")
  {
    PlusMatchExample();
    PlusMismatchExample();
  }

  lemma PlusMatchExample()
    ensures Matches("a/+/c", "a/b/c")
  {
    assert "a/" + "+" + "/c" == "a/+/c";
    SingleLevelSkipsLevel("a/", "/c", "a/b/c");
    var u := "a/b/c"[2..];
    assert u == "b/c";
    assert LevelEnd(u) == 1;
    assert "a/b/c"[3..] == "/c";
    WildcardFreeMatchesIffEqual("/c", "/c");
  }

  lemma PlusMismatchExample()
    ensures !Matches("a/+/c", "a/b/x/c")
  {
    assert "a/" + "+" + "/c" == "a/+/c";
    var u := "a/b/x/c"[2..];
    assert u == "b/x/c";
    assert LevelEnd(u) == 1;
    assert "a/b/x/c"[3..] == "/x/c";
    assert !Matches("/c", "/x/c") by {
      WildcardFreeMatchesIffEqual("/c", "/x/c");
    }
    SingleLevelSkipsLevel("a/", "/c", "a/b/x/c");
  }

  lemma PlusAtEndExample()
    ensures Matches("a/+", "a/")
  {
    assert "a/" + "+" + "" == "a/+";
    SingleLevelSkipsLevel("a/", "", "a/");
  }

  lemma HashExamples()
    ensures Matches("a/#", "a/b/c")
    ensures !Matches("a/#", "a")
    ensures !Matches("#", "")
  {
    assert "a/" + "#" + "" == "a/#";
    MultiLevelAcceptsRest("a/", "", "a/b/c");
    MultiLevelAcceptsRest("a/", "", "a");
  }
}
