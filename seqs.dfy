/** Sequence operations the transfer code relies on: joining pieces, substring
    search (Python's `in` and `find`) and deleting every occurrence of a
    pattern (Python's `replace(pat, "")`, for `bytes` and `str` alike). */
module Seqs {

  /** The pieces laid end to end, in order (`b"".join(pieces)`). */
  function Concat<T>(parts: seq<seq<T>>): seq<T>
  {
    if parts == [] then [] else parts[0] + Concat(parts[1..])
  }

  lemma {:induction false} ConcatAppend<T>(a: seq<seq<T>>, b: seq<seq<T>>)
    ensures Concat(a + b) == Concat(a) + Concat(b)
  {
    if a == [] {
      assert a + b == b;
    } else {
      assert (a + b)[1..] == a[1..] + b;
      ConcatAppend(a[1..], b);
    }
  }

  lemma ConcatCons<T>(p: seq<T>, rest: seq<seq<T>>)
    ensures Concat([p] + rest) == p + Concat(rest)
  {
    assert ([p] + rest)[1..] == rest;
  }

  lemma ConcatOne<T>(p: seq<T>)
    ensures Concat([p]) == p
  {
    assert [p][1..] == [];
  }

  /** Every piece is a slice of the whole: a piece ends no later than the join. */
  lemma {:induction false} ConcatPrefix<T>(parts: seq<seq<T>>, k: nat)
    requires k <= |parts|
    ensures Concat(parts) == Concat(parts[..k]) + Concat(parts[k..])
  {
    assert parts == parts[..k] + parts[k..];
    ConcatAppend(parts[..k], parts[k..]);
  }

  /** A sequence is its prefix followed by the rest. */
  lemma SplitAt<T>(s: seq<T>, k: nat)
    requires k <= |s|
    ensures s[..k] + s[k..] == s
  {
  }

  /** Putting back the head of `p` in front of a prefix of its tail gives a
      prefix of `p`, and all of `p` exactly when the prefix was the whole tail. */
  lemma PrefixCons<T>(p: seq<T>, d: seq<T>)
    requires p != [] && |d| < |p| && d == p[1..][..|d|]
    ensures [p[0]] + d == p[..1 + |d|]
    ensures [p[0]] + d == p <==> d == p[1..]
  {
    assert p == [p[0]] + p[1..];
    if [p[0]] + d == p {
      assert d == ([p[0]] + d)[1..];
    }
  }

  /** Two ways of cutting the same sequence: when `front + last == a + b`
      and `last` is at least as long as `b`, `front` is a prefix of `a` and
      `last` the rest of `a` followed by `b`. */
  lemma SplitAppend<T>(front: seq<T>, last: seq<T>, a: seq<T>, b: seq<T>)
    requires front + last == a + b && |last| >= |b|
    ensures |front| <= |a| && front == a[..|front|] && last == a[|front|..] + b
  {
    var s := a + b;
    assert s[..|front|] == front;
    assert s[|front|..] == last;
  }

  /** When a join of pieces is `a + b` and its last piece is at least as long
      as `b`, the earlier pieces make up a prefix of `a` and the last piece
      is the rest of `a` followed by `b`. */
  lemma ConcatSplitLast<T>(parts: seq<seq<T>>, a: seq<T>, b: seq<T>)
    requires parts != [] && Concat(parts) == a + b
    requires |parts[|parts| - 1]| >= |b|
    ensures var n := |parts| - 1;
      var m := |Concat(parts[..n])|;
      && m <= |a|
      && Concat(parts[..n]) == a[..m]
      && parts[n] == a[m..] + b
  {
    var n := |parts| - 1;
    var last := parts[n];
    ConcatPrefix(parts, n);
    assert parts[n..] == [last];
    ConcatOne(last);
    SplitAppend(Concat(parts[..n]), last, a, b);
  }

  /** `pat` occurs in `s` starting at index `i`. */
  predicate OccursAt<T(==)>(s: seq<T>, pat: seq<T>, i: int)
  {
    0 <= i && i + |pat| <= |s| && s[i..i + |pat|] == pat
  }

  /** Python's `pat in s`. */
  predicate Contains<T(==)>(s: seq<T>, pat: seq<T>)
  {
    exists i :: 0 <= i <= |s| - |pat| && OccursAt(s, pat, i)
  }

  /** An occurrence inside a slice is an occurrence in the whole sequence. */
  lemma ContainsInSlice<T>(s: seq<T>, lo: nat, hi: nat, pat: seq<T>)
    requires lo <= hi <= |s|
    requires Contains(s[lo..hi], pat)
    ensures Contains(s, pat)
  {
    var i :| 0 <= i <= |s[lo..hi]| - |pat| && OccursAt(s[lo..hi], pat, i);
    forall k | 0 <= k < |pat|
      ensures s[lo + i..lo + i + |pat|][k] == pat[k]
    {
      assert s[lo..hi][i..i + |pat|][k] == s[lo + i + k];
    }
    assert OccursAt(s, pat, lo + i);
  }

  /** Index of the first occurrence of `pat` at or after `from`, or -1. */
  function FindFrom<T(==)>(s: seq<T>, pat: seq<T>, from: nat): (r: int)
    ensures r == -1 || (from <= r && OccursAt(s, pat, r))
    ensures r == -1 ==> forall j :: from <= j ==> !OccursAt(s, pat, j)
    ensures r != -1 ==> forall j :: from <= j < r ==> !OccursAt(s, pat, j)
    decreases |s| - from
  {
    if from + |pat| > |s| then -1
    else if s[from..from + |pat|] == pat then from
    else FindFrom(s, pat, from + 1)
  }

  /** A pattern absent from a join is absent from every piece of it. */
  lemma {:induction false} ConcatAvoids<T>(parts: seq<seq<T>>, pat: seq<T>)
    requires !Contains(Concat(parts), pat)
    ensures forall j :: 0 <= j < |parts| ==> !Contains(parts[j], pat)
  {
    if parts != [] {
      var s := Concat(parts);
      assert s[..|parts[0]|] == parts[0];
      assert s[|parts[0]|..] == Concat(parts[1..]);
      if Contains(parts[0], pat) {
        ContainsInSlice(s, 0, |parts[0]|, pat);
      }
      if Contains(Concat(parts[1..]), pat) {
        assert s[|parts[0]|..|s|] == Concat(parts[1..]);
        ContainsInSlice(s, |parts[0]|, |s|, pat);
      }
      ConcatAvoids(parts[1..], pat);
      assert forall j :: 1 <= j < |parts| ==> parts[j] == parts[1..][j - 1];
    }
  }

  /** Python's `s.find(pat)`: the lowest index where `pat` occurs, or -1. */
  function Find<T(==)>(s: seq<T>, pat: seq<T>): (r: int)
    ensures r == -1 <==> !Contains(s, pat)
    ensures r != -1 ==> OccursAt(s, pat, r) && forall j :: 0 <= j < r ==> !OccursAt(s, pat, j)
  {
    FindFrom(s, pat, 0)
  }

  lemma NotContainsTail<T>(s: seq<T>, pat: seq<T>)
    requires s != [] && !Contains(s, pat)
    ensures !Contains(s[1..], pat)
  {
    if Contains(s[1..], pat) {
      assert s[1..|s|] == s[1..];
      ContainsInSlice(s, 1, |s|, pat);
    }
  }

  /** Python's `s.replace(pat, empty)`: scanning left to right, every
      non-overlapping occurrence of `pat` is deleted. */
  function RemoveAll<T(==)>(s: seq<T>, pat: seq<T>): (r: seq<T>)
    requires |pat| > 0
    ensures !Contains(s, pat) ==> r == s
    ensures Contains(s, pat) ==> |r| <= |s| - |pat|
    ensures |r| <= |s|
    decreases |s|
  {
    if |s| < |pat| then s
    else if s[..|pat|] == pat then
      assert OccursAt(s, pat, 0);
      RemoveAll(s[|pat|..], pat)
    else
      var rest := RemoveAll(s[1..], pat);
      assert Contains(s, pat) ==> Contains(s[1..], pat) by {
        if Contains(s, pat) {
          var i :| 0 <= i <= |s| - |pat| && OccursAt(s, pat, i);
          assert i != 0;
          assert s[1..][i - 1..i - 1 + |pat|] == s[i..i + |pat|];
          assert OccursAt(s[1..], pat, i - 1);
        }
      }
      assert !Contains(s, pat) ==> !Contains(s[1..], pat) by {
        if !Contains(s, pat) { NotContainsTail(s, pat); }
      }
      [s[0]] + rest
  }

  /** Deleting `pat` from `c + pat`, when no occurrence starts inside `c`,
      removes exactly the trailing `pat`. */
  lemma {:induction false} RemoveAllTail<T>(c: seq<T>, pat: seq<T>)
    requires |pat| > 0
    requires forall k :: 0 <= k < |c| ==> !OccursAt(c + pat, pat, k)
    ensures RemoveAll(c + pat, pat) == c
  {
    var s := c + pat;
    if c == [] {
      assert s == pat;
      assert s[|pat|..] == [];
    } else {
      assert !OccursAt(s, pat, 0);
      var t := c[1..];
      assert s[1..] == t + pat;
      forall k | 0 <= k < |t|
        ensures !OccursAt(t + pat, pat, k)
      {
        assert !OccursAt(s, pat, k + 1);
        assert (t + pat)[k..k + |pat|] == s[k + 1..k + 1 + |pat|];
      }
      RemoveAllTail(t, pat);
    }
  }

  /** A pattern without the separator `c` cannot occur across it: every
      occurrence in `a + [c] + b` lies inside `a` or inside `b`. */
  lemma NotContainsAcross<T>(a: seq<T>, c: T, b: seq<T>, pat: seq<T>)
    requires c !in pat
    requires !Contains(a, pat) && !Contains(b, pat)
    ensures !Contains(a + [c] + b, pat)
  {
    var s := a + [c] + b;
    if Contains(s, pat) {
      var i :| 0 <= i <= |s| - |pat| && OccursAt(s, pat, i);
      assert s[|a|] == c;
      assert forall k :: 0 <= k < |pat| ==> pat[k] == s[i + k] && pat[k] in pat;
      if i + |pat| <= |a| {
        assert s[..|a|] == a;
        assert s[i..i + |pat|] == a[i..i + |pat|];
        assert OccursAt(a, pat, i);
      } else if i > |a| {
        assert s[|a| + 1..] == b;
        assert s[i..i + |pat|] == b[i - |a| - 1..i - |a| - 1 + |pat|];
        assert OccursAt(b, pat, i - |a| - 1);
      } else {
        // the occurrence would cover index |a|, so c would be in pat
        assert false;
      }
    }
  }

  /** What precedes the first occurrence of `pat` does not contain `pat`. */
  lemma FindPrefixAvoids<T>(s: seq<T>, pat: seq<T>)
    requires pat != [] && Contains(s, pat)
    ensures 0 <= Find(s, pat) <= |s| && !Contains(s[..Find(s, pat)], pat)
  {
    var i := Find(s, pat);
    forall j | 0 <= j <= i - |pat|
      ensures !OccursAt(s[..i], pat, j)
    {
      assert s[..i][j..j + |pat|] == s[j..j + |pat|];
      assert !OccursAt(s, pat, j);
    }
  }

  /** Deleting `pat` from `pat + body`, when `body` is free of it, leaves
      `body`. */
  lemma RemoveAllLead<T>(pat: seq<T>, body: seq<T>)
    requires |pat| > 0 && !Contains(body, pat)
    ensures RemoveAll(pat + body, pat) == body
  {
    var s := pat + body;
    assert s[..|pat|] == pat;
    assert s[|pat|..] == body;
  }

  /** After a sequence free of `pat` and a separator that `pat` does not
      contain, the first occurrence of `pat` in `a + [c] + pat` is the one
      that follows the separator. */
  lemma FindAfterSeparator<T>(a: seq<T>, c: T, pat: seq<T>)
    requires c !in pat && !Contains(a, pat)
    ensures Find(a + [c] + pat, pat) == |a| + 1
  {
    var s := a + [c] + pat;
    assert s[|a| + 1..] == pat;
    assert OccursAt(s, pat, |a| + 1);
    forall j | 0 <= j < |a| + 1
      ensures !OccursAt(s, pat, j)
    {
      if j + |pat| <= |a| {
        assert s[j..j + |pat|] == a[j..j + |pat|];
        assert OccursAt(s, pat, j) ==> OccursAt(a, pat, j);
      } else {
        assert s[j..j + |pat|][|a| - j] == c;
        assert pat[|a| - j] in pat;
      }
    }
  }

  /** Python's `sep.join(parts)`. */
  function Join<T>(sep: seq<T>, parts: seq<seq<T>>): seq<T>
  {
    if parts == [] then []
    else if |parts| == 1 then parts[0]
    else parts[0] + sep + Join(sep, parts[1..])
  }

  /** Joining with a one-element separator that the pattern does not
      contain creates no occurrence of the pattern. */
  lemma {:induction false} JoinAvoids<T>(c: T, parts: seq<seq<T>>, pat: seq<T>)
    requires pat != [] && c !in pat
    requires forall k :: 0 <= k < |parts| ==> !Contains(parts[k], pat)
    ensures !Contains(Join([c], parts), pat)
  {
    if parts == [] {
      assert !OccursAt([], pat, 0);
    } else if |parts| > 1 {
      JoinAvoids(c, parts[1..], pat);
      NotContainsAcross(parts[0], c, Join([c], parts[1..]), pat);
    }
  }

  /** Parts free of `pat`, joined and wrapped in a separator `pat` does not
      contain, give a sequence free of `pat`. */
  lemma WrappedJoinAvoids<T>(c: T, parts: seq<seq<T>>, pat: seq<T>)
    requires pat != [] && c !in pat
    requires forall k :: 0 <= k < |parts| ==> !Contains(parts[k], pat)
    ensures !Contains([c] + Join([c], parts) + [c], pat)
  {
    var joined := Join([c], parts);
    JoinAvoids(c, parts, pat);
    assert !OccursAt([], pat, 0);
    NotContainsAcross([], c, joined, pat);
    assert [] + [c] + joined == [c] + joined;
    NotContainsAcross([c] + joined, c, [], pat);
    assert [c] + joined + [c] + [] == [c] + joined + [c];
  }
}
