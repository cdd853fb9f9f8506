/**
 The patterns of network ACLs (containsOrWildcardMatch in pkg/meshdb/networking/eval.go) against globbing.
 */
module Wildcards {

  predicate HasSuffix(s: string, suffix: string) {
    |suffix| <= |s| && s[|s| - |suffix|..] == suffix
  }

  /** The position of the first star, or the length when there is none. */
  function FirstStar(s: string): (i: nat)
    ensures i <= |s| && '*' !in s[..i]
    ensures i < |s| ==> s[i] == '*'
    ensures i < |s| <==> '*' in s
  {
    if s == [] || s[0] == '*' then 0 else
      var i := FirstStar(s[1..]);
      assert s[..1 + i] == [s[0]] + s[1..][..i];
      assert s == [s[0]] + s[1..];
      1 + i
  }

  /** One iteration of containsOrWildcardMatch. */
  predicate WildcardMatch(v: string, s: string) {
    if v == "*" then true
    else if '*' !in v then v == s
    else if v[0] == '*' then HasSuffix(s, v[1..])
    else if v[|v| - 1] == '*' then v[..|v| - 1] <= s
    else
      var i := FirstStar(v);
      var rest := v[i + 1..];
      v[..i] <= s && HasSuffix(s, rest[..FirstStar(rest)])
  }

  /** The usual meaning of a pattern: each star stands for some string. */
  predicate Glob(v: string, s: string)
    decreases |v| + |s|
  {
    if v == "" then s == ""
    else if v[0] == '*' then Glob(v[1..], s) || (s != "" && Glob(v, s[1..]))
    else s != "" && s[0] == v[0] && Glob(v[1..], s[1..])
  }

  /** What a pattern has besides its stars. */
  function Literals(v: string): string {
    if v == "" then "" else (if v[0] == '*' then "" else [v[0]]) + Literals(v[1..])
  }

  lemma {:induction false} LiteralsStarFree(v: string)
    ensures '*' !in Literals(v)
  {
    if v != "" {
      LiteralsStarFree(v[1..]);
    }
  }

  lemma {:induction false} LiteralsLength(a: string, b: string)
    ensures |Literals(a + b)| == |Literals(a)| + |Literals(b)|
    ensures '*' !in a ==> |Literals(a)| == |a|
  {
    if a == "" {
      assert a + b == b;
    } else {
      assert (a + b)[1..] == a[1..] + b;
      LiteralsLength(a[1..], b);
    }
  }

  lemma {:induction false} GlobLiterals(v: string)
    ensures Glob(v, Literals(v))
  {
    if v != "" {
      GlobLiterals(v[1..]);
      if v[0] == '*' {
        assert Literals(v) == Literals(v[1..]);
      } else {
        assert Literals(v)[1..] == Literals(v[1..]);
      }
    }
  }

  lemma {:induction false} GlobLength(v: string, s: string)
    requires Glob(v, s)
    ensures |s| >= |Literals(v)|
    decreases |v| + |s|
  {
    if v != "" {
      if v[0] != '*' {
        GlobLength(v[1..], s[1..]);
      } else if Glob(v[1..], s) {
        GlobLength(v[1..], s);
      } else {
        GlobLength(v, s[1..]);
      }
    }
  }

  lemma {:induction false} GlobPrefix(pre: string, v: string, s: string)
    requires '*' !in pre
    ensures Glob(pre + v, s) <==> pre <= s && Glob(v, s[|pre|..])
  {
    if pre == "" {
      assert pre + v == v && s[0..] == s;
    } else {
      assert (pre + v)[1..] == pre[1..] + v;
      if s != "" {
        GlobPrefix(pre[1..], v, s[1..]);
        assert pre <= s <==> pre[0] == s[0] && pre[1..] <= s[1..];
        if pre <= s {
          assert s[1..][|pre| - 1..] == s[|pre|..];
        }
      }
    }
  }

  lemma GlobLiteral(v: string, s: string)
    requires '*' !in v
    ensures Glob(v, s) <==> v == s
  {
    GlobPrefix(v, "", s);
    assert v + "" == v;
  }

  lemma {:induction false} GlobSuffix(suf: string, s: string)
    requires '*' !in suf
    ensures Glob("*" + suf, s) <==> HasSuffix(s, suf)
    decreases |s|
  {
    assert ("*" + suf)[1..] == suf;
    GlobLiteral(suf, s);
    if s != "" {
      GlobSuffix(suf, s[1..]);
      assert |suf| < |s| ==> s[1..][|s| - 1 - |suf|..] == s[|s| - |suf|..];
      assert |suf| == |s| ==> s[0..] == s;
    }
  }

  lemma {:induction false} FirstStarIs(v: string, i: nat)
    requires i < |v| && v[i] == '*' && '*' !in v[..i]
    ensures FirstStar(v) == i
  {
    if i > 0 {
      assert v[..i][0] == v[0] && v[1..][..i - 1] == v[..i][1..];
      FirstStarIs(v[1..], i - 1);
    }
  }

  /** A pattern taken apart at its first star. */
  lemma StarAt(v: string, pre: string, rest: string)
    requires v == pre + "*" + rest && '*' !in pre
    ensures FirstStar(v) == |pre| < |v| && v[..|pre|] == pre && v[|pre| + 1..] == rest
  {
    assert v[..|pre|] == pre;
    FirstStarIs(v, |pre|);
  }

  lemma SplitAtStar(v: string) returns (pre: string, rest: string)
    requires '*' in v
    ensures v == pre + "*" + rest && '*' !in pre
    ensures pre == v[..FirstStar(v)] && rest == v[FirstStar(v) + 1..]
  {
    var i := FirstStar(v);
    pre, rest := v[..i], v[i + 1..];
  }

  lemma OneStarMatch(v: string, s: string, pre: string, suf: string)
    requires v == pre + "*" + suf && '*' !in pre && '*' !in suf
    ensures WildcardMatch(v, s) <==> pre <= s && HasSuffix(s, suf)
  {
    StarAt(v, pre, suf);
    assert suf[..|suf|] == suf;
  }

  lemma OneStarGlob(v: string, s: string, pre: string, suf: string)
    requires v == pre + "*" + suf && '*' !in pre && '*' !in suf
    ensures Glob(v, s) <==> pre <= s && HasSuffix(s, suf) && |s| >= |pre| + |suf|
  {
    assert v == pre + ("*" + suf);
    GlobPrefix(pre, "*" + suf, s);
    if pre <= s {
      GlobSuffix(suf, s[|pre|..]);
      if |s| >= |pre| + |suf| {
        assert s[|pre|..][|s| - |pre| - |suf|..] == s[|s| - |suf|..];
      }
    }
  }

  /**
   On one-star patterns the source's test is globbing, except that the text on the two sides of the star
   may overlap: it is exact precisely on strings at least as long as that text.
   */
  lemma WildcardIsGlob(v: string, s: string)
    requires '*' in v && '*' !in v[FirstStar(v) + 1..]
    ensures Glob(v, s) <==> WildcardMatch(v, s) && |s| >= |v| - 1
  {
    var i := FirstStar(v);
    assert v == v[..i] + "*" + v[i + 1..];
    OneStarMatch(v, s, v[..i], v[i + 1..]);
    OneStarGlob(v, s, v[..i], v[i + 1..]);
  }

  /** The end of `pre` is the beginning of `suf`. */
  ghost predicate Overlaps(pre: string, suf: string, n: nat) {
    1 <= n <= |pre| && n <= |suf| && pre[|pre| - n..] == suf[..n]
  }

  /** The source's test tells the pattern from globbing on no string. */
  ghost predicate Faithful(v: string) {
    forall s: string :: WildcardMatch(v, s) <==> Glob(v, s)
  }

  ghost predicate Apart(pre: string, suf: string) {
    forall n: nat :: !Overlaps(pre, suf, n)
  }

  /** An overlap gives a string that is matched though it is too short for the glob. */
  lemma OverlapMisleads(v: string, pre: string, suf: string, n: nat)
    requires v == pre + "*" + suf && '*' !in pre && '*' !in suf && Overlaps(pre, suf, n)
    ensures WildcardMatch(v, pre + suf[n..]) && !Glob(v, pre + suf[n..])
  {
    var s := pre + suf[n..];
    assert pre == pre[..|pre| - n] + suf[..n];
    assert suf == suf[..n] + suf[n..];
    assert s == pre[..|pre| - n] + suf;
    assert HasSuffix(s, suf);
    OneStarMatch(v, s, pre, suf);
    OneStarGlob(v, s, pre, suf);
  }

  lemma ShortOverlaps(pre: string, suf: string, s: string)
    requires pre <= s && HasSuffix(s, suf) && |s| < |pre| + |suf|
    ensures Overlaps(pre, suf, |pre| + |suf| - |s|)
  {
    var n := |pre| + |suf| - |s|;
    assert pre[|pre| - n..] == s[|pre| - n..|pre|];
    assert suf[..n] == s[|s| - |suf|..][..n] == s[|pre| - n..|pre|];
  }

  lemma OneStarFaithful(v: string, pre: string, suf: string)
    requires v == pre + "*" + suf && '*' !in pre && '*' !in suf
    ensures Faithful(v) <==> Apart(pre, suf)
  {
    if Apart(pre, suf) {
      forall s: string ensures WildcardMatch(v, s) <==> Glob(v, s) {
        OneStarMatch(v, s, pre, suf);
        OneStarGlob(v, s, pre, suf);
        if pre <= s && HasSuffix(s, suf) && |s| < |pre| + |suf| {
          ShortOverlaps(pre, suf, s);
        }
      }
    } else {
      var n: nat :| Overlaps(pre, suf, n);
      OverlapMisleads(v, pre, suf, n);
    }
  }

  /** With a star at an end, any further star is tested as a plain character. */
  lemma OuterStar(v: string)
    requires '*' in v && '*' in v[FirstStar(v) + 1..] && (v[0] == '*' || v[|v| - 1] == '*')
    ensures Glob(v, Literals(v)) && !WildcardMatch(v, Literals(v))
  {
    var plain, i := Literals(v), FirstStar(v);
    LiteralsStarFree(v);
    GlobLiterals(v);
    SuffixStarFree(plain, v[1..]);
    PrefixStarFree(plain, v[..|v| - 1]);
    if v[0] == '*' {
      assert i == 0;
    } else {
      assert v[..|v| - 1][i] == '*';
    }
  }

  lemma SuffixStarFree(s: string, suf: string)
    requires '*' !in s
    ensures HasSuffix(s, suf) ==> '*' !in suf
  {
  }

  lemma PrefixStarFree(s: string, pre: string)
    requires '*' !in s
    ensures pre <= s ==> '*' !in pre
  {
  }

  /** Otherwise the text from the second star on is not tested at all. */
  lemma InnerStars(v: string, pre: string, mid: string, last: string)
    requires v == pre + "*" + (mid + "*" + last) && '*' !in pre && '*' !in mid
    requires pre != "" && last != "" && last[|last| - 1] != '*'
    ensures WildcardMatch(v, pre + mid) && !Glob(v, pre + mid)
  {
    var rest, s := mid + "*" + last, pre + mid;
    StarAt(v, pre, rest);
    StarAt(rest, mid, last);
    assert v[0] == pre[0] && v[|v| - 1] == last[|last| - 1];
    assert HasSuffix(s, mid) && pre <= s;
    assert WildcardMatch(v, s);
    TextLength(v, pre, mid, last);
    if Glob(v, s) {
      GlobLength(v, s);
    }
  }

  lemma TextLength(v: string, pre: string, mid: string, last: string)
    requires v == pre + "*" + (mid + "*" + last) && '*' !in pre && '*' !in mid
    requires last != "" && last[|last| - 1] != '*'
    ensures |Literals(v)| > |pre| + |mid|
  {
    LastIsText(last);
    LiteralsLength(pre + "*", mid + "*" + last);
    LiteralsLength(pre, "*");
    LiteralsLength(mid + "*", last);
    LiteralsLength(mid, "*");
  }

  lemma LastIsText(v: string)
    requires v != "" && v[|v| - 1] != '*'
    ensures |Literals(v)| > 0
  {
    var n := |v| - 1;
    assert v == v[..n] + [v[n]];
    LiteralsLength(v[..n], [v[n]]);
    LiteralsLength([v[n]], "");
  }

  lemma LastChar(v: string, pre: string, rest: string)
    requires v == pre + "*" + rest
    ensures v[|v| - 1] == if rest == "" then '*' else rest[|rest| - 1]
  {
  }

  /** Two stars and text around them. */
  lemma TwoStars(v: string) returns (pre: string, mid: string, last: string)
    requires '*' in v && '*' in v[FirstStar(v) + 1..] && v[0] != '*' && v[|v| - 1] != '*'
    ensures v == pre + "*" + (mid + "*" + last) && '*' !in pre && '*' !in mid
    ensures pre != "" && last != "" && last[|last| - 1] != '*'
  {
    var rest;
    pre, rest := SplitAtStar(v);
    mid, last := SplitAtStar(rest);
    LastChar(v, pre, rest);
    LastChar(rest, mid, last);
  }

  /** So a pattern with several stars is matched otherwise than as a glob. */
  lemma ManyStars(v: string) returns (s: string)
    requires '*' in v && '*' in v[FirstStar(v) + 1..]
    ensures WildcardMatch(v, s) != Glob(v, s)
  {
    if v[0] == '*' || v[|v| - 1] == '*' {
      OuterStar(v);
      s := Literals(v);
    } else {
      var pre, mid, last := TwoStars(v);
      InnerStars(v, pre, mid, last);
      s := pre + mid;
    }
  }

  /**
   A pattern is matched as a glob on all strings exactly when it has no star, or one whose two sides
   cannot overlap.
   */
  lemma WildcardExact(v: string)
    ensures Faithful(v) <==>
            '*' in v ==> '*' !in v[FirstStar(v) + 1..] && Apart(v[..FirstStar(v)], v[FirstStar(v) + 1..])
  {
    if '*' !in v {
      forall s: string ensures WildcardMatch(v, s) <==> Glob(v, s) {
        GlobLiteral(v, s);
      }
    } else {
      var i := FirstStar(v);
      if '*' in v[i + 1..] {
        var s := ManyStars(v);
      } else {
        assert v == v[..i] + "*" + v[i + 1..];
        OneStarFaithful(v, v[..i], v[i + 1..]);
      }
    }
  }

  lemma WildcardOverlap()
    ensures WildcardMatch("ab*ba", "aba") && !Glob("ab*ba", "aba")
  {
    assert "ab*ba" == "ab" + "*" + "ba" && "ab" + "ba"[1..] == "aba";
    assert "ab"[1..] == "ba"[..1];
    OverlapMisleads("ab*ba", "ab", "ba", 1);
  }
}
