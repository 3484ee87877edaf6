/**
 Substring search on strings: Python's `needle in hay`, `s.endswith(p)` and
 `s.replace(p, "")`.
 */
module Substrings {

  /** `needle` sits in `hay` starting at index `i`. */
  predicate OccursAt(hay: string, needle: string, i: int)
  {
    0 <= i && i + |needle| <= |hay| && hay[i..i + |needle|] == needle
  }

  /** Python's `needle in hay`. */
  predicate Contains(hay: string, needle: string)
  {
    exists i :: 0 <= i <= |hay| && OccursAt(hay, needle, i)
  }

  /** Python's `s.endswith(suffix)`. */
  predicate EndsWith(s: string, suffix: string)
  {
    |suffix| <= |s| && s[|s| - |suffix|..] == suffix
  }

  /** No proper prefix of `pat` is also a suffix of it, so two occurrences
      of `pat` can never overlap. */
  predicate NoBorder(pat: string)
  {
    forall k :: 0 < k < |pat| ==> pat[..k] != pat[|pat| - k..]
  }

  lemma EndsWithContains(s: string, suffix: string)
    requires EndsWith(s, suffix)
    ensures Contains(s, suffix)
  {
    assert OccursAt(s, suffix, |s| - |suffix|);
  }

  /** An occurrence of an occurrence is an occurrence. */
  lemma ContainsTransitive(t: string, x: string, y: string)
    requires Contains(t, x) && Contains(x, y)
    ensures Contains(t, y)
  {
    var i :| 0 <= i <= |t| && OccursAt(t, x, i);
    var j :| 0 <= j <= |x| && OccursAt(x, y, j);
    forall k | 0 <= k < |y| ensures t[i + j + k] == y[k] {
      assert t[i..i + |x|][j + k] == t[i + j + k];
      assert x[j..j + |y|][k] == x[j + k];
    }
    assert OccursAt(t, y, i + j);
  }

  /** A string cannot occur where one of its characters does not. */
  lemma MissingCharNotContained(hay: string, needle: string, c: char)
    requires c in needle && c !in hay
    ensures !Contains(hay, needle)
  {
  }

  /** A pattern whose first character does not recur inside it has no border. */
  lemma FirstCharUniqueNoBorder(pat: string)
    requires pat != [] && pat[0] !in pat[1..]
    ensures NoBorder(pat)
  {
    forall k | 0 < k < |pat|
      ensures pat[..k] != pat[|pat| - k..]
    {
      assert pat[|pat| - k..][0] == pat[1..][|pat| - k - 1];
    }
  }

  /** Where `pat` does not start `s`, occurrences in `s` are the
      occurrences in its tail. */
  lemma ContainsTail(s: string, pat: string)
    requires s != [] && !OccursAt(s, pat, 0)
    ensures Contains(s, pat) <==> Contains(s[1..], pat)
  {
    if Contains(s, pat) {
      var i :| 0 <= i <= |s| && OccursAt(s, pat, i);
      assert s[1..][i - 1..i - 1 + |pat|] == s[i..i + |pat|];
      assert OccursAt(s[1..], pat, i - 1);
    }
    if Contains(s[1..], pat) {
      var i :| 0 <= i <= |s[1..]| && OccursAt(s[1..], pat, i);
      assert s[1..][i..i + |pat|] == s[i + 1..i + 1 + |pat|];
      assert OccursAt(s, pat, i + 1);
    }
  }

  /** Python's `s.replace(pat, "")`: scanning left to right, every
      occurrence of `pat` that does not overlap an earlier removed one is
      removed. */
  function RemoveAll(s: string, pat: string): (r: string)
    requires pat != []
    ensures |r| <= |s|
    ensures r == s <==> !Contains(s, pat)
    ensures Contains(s, pat) ==> |r| <= |s| - |pat|
    decreases |s|
  {
    if |s| < |pat| then
      assert !Contains(s, pat);
      s
    else if s[..|pat|] == pat then
      assert OccursAt(s, pat, 0);
      RemoveAll(s[|pat|..], pat)
    else
      ContainsTail(s, pat);
      [s[0]] + RemoveAll(s[1..], pat)
  }

  /** An occurrence of `pat` that starts inside `x` and ends inside the
      `pat` appended to it exposes a border of `pat`. */
  lemma SeamBorder(x: string, pat: string)
    requires 0 < |x| < |pat| && (x + pat)[..|pat|] == pat
    ensures pat[..|pat| - |x|] == pat[|pat| - (|pat| - |x|)..]
  {
    var k := |pat| - |x|;
    forall i | 0 <= i < k ensures pat[..k][i] == pat[|x|..][i] {
      assert (x + pat)[|x| + i] == pat[i];
      assert (x + pat)[..|pat|][|x| + i] == pat[|x| + i];
    }
  }

  /** Removing a border-free pattern from a string that ends with it is
      removing it from what precedes it: no occurrence straddles the seam. */
  lemma {:induction false} RemoveAllAppend(x: string, pat: string)
    requires pat != [] && NoBorder(pat)
    ensures RemoveAll(x + pat, pat) == RemoveAll(x, pat)
    decreases |x|
  {
    var s := x + pat;
    if x == [] {
      assert s[..|pat|] == pat;
      assert s[|pat|..] == [];
    } else if s[..|pat|] == pat {
      if |x| < |pat| {
        SeamBorder(x, pat);
        assert false;
      }
      assert x[..|pat|] == pat;
      assert s[|pat|..] == x[|pat|..] + pat;
      RemoveAllAppend(x[|pat|..], pat);
    } else {
      assert s[1..] == x[1..] + pat;
      RemoveAllAppend(x[1..], pat);
      if |x| >= |pat| {
        assert x[..|pat|] == s[..|pat|];
      } else {
        assert RemoveAll(x[1..], pat) == x[1..];
      }
    }
  }
  /** Where `pat` does not start `s`, `replace` keeps the first character. */
  lemma RemoveAllKeepsHead(s: string, pat: string)
    requires pat != [] && |pat| <= |s| && !OccursAt(s, pat, 0)
    ensures RemoveAll(s, pat) == [s[0]] + RemoveAll(s[1..], pat)
  {
  }

  /** Where `pat` starts `s`, `replace` drops it. */
  lemma RemoveAllDropsHead(s: string, pat: string)
    requires pat != [] && OccursAt(s, pat, 0)
    ensures RemoveAll(s, pat) == RemoveAll(s[|pat|..], pat)
  {
    assert s[..|pat|] == pat;
  }

  /** Occurrences in the tail of `s` are occurrences in `s`, one further on. */
  lemma NoEarlierInTail(s: string, pat: string, i: nat)
    requires 0 < i <= |s| && forall j :: 0 <= j < i ==> !OccursAt(s, pat, j)
    ensures forall j :: 0 <= j < i - 1 ==> !OccursAt(s[1..], pat, j)
  {
    forall j | 0 <= j < i - 1 ensures !OccursAt(s[1..], pat, j) {
      assert !OccursAt(s, pat, j + 1);
      if j + |pat| <= |s| - 1 {
        assert s[1..][j..j + |pat|] == s[j + 1..j + 1 + |pat|];
      }
    }
  }

  /** `replace` keeps what precedes the leftmost occurrence, drops that
      occurrence and carries on after it. */
  lemma {:induction false} RemoveAllLeftmost(x: string, pat: string, y: string)
    requires pat != []
    requires forall j :: 0 <= j < |x| ==> !OccursAt(x + pat + y, pat, j)
    ensures RemoveAll(x + pat + y, pat) == x + RemoveAll(y, pat)
    decreases |x|
  {
    if x == [] {
      var s := x + pat + y;
      assert OccursAt(s, pat, 0) by { assert s[..|pat|] == pat; }
      RemoveAllDropsHead(s, pat);
      assert s[|pat|..] == y;
    } else {
      LeftmostInTail(x, pat, y);
      RemoveAllLeftmost(x[1..], pat, y);
      LeftmostKeepsHead(x, pat, y);
    }
  }

  /** The hypothesis of `RemoveAllLeftmost` carries over to the tail of x. */
  lemma LeftmostInTail(x: string, pat: string, y: string)
    requires x != []
    requires forall j :: 0 <= j < |x| ==> !OccursAt(x + pat + y, pat, j)
    ensures forall j :: 0 <= j < |x| - 1 ==> !OccursAt(x[1..] + pat + y, pat, j)
  {
    var s := x + pat + y;
    assert s[1..] == x[1..] + pat + y;
    NoEarlierInTail(s, pat, |x|);
  }

  /** The first character of x survives, in front of the result on the rest. */
  lemma LeftmostKeepsHead(x: string, pat: string, y: string)
    requires pat != [] && x != []
    requires !OccursAt(x + pat + y, pat, 0)
    requires RemoveAll(x[1..] + pat + y, pat) == x[1..] + RemoveAll(y, pat)
    ensures RemoveAll(x + pat + y, pat) == x + RemoveAll(y, pat)
  {
    var s := x + pat + y;
    assert s[1..] == x[1..] + pat + y;
    RemoveAllKeepsHead(s, pat);
    assert RemoveAll(s, pat) == [x[0]] + (x[1..] + RemoveAll(y, pat));
    ConsJoin(x, RemoveAll(y, pat));
  }

  lemma ConsJoin(x: string, r: string)
    requires x != []
    ensures [x[0]] + (x[1..] + r) == x + r
  {
    assert [x[0]] + x[1..] == x;
  }

  /** Two occurrences less than a pattern length apart expose a border. */
  lemma OverlapBorder(s: string, pat: string, j: int, i: int)
    requires OccursAt(s, pat, j) && OccursAt(s, pat, i) && j < i < j + |pat|
    ensures pat[..j + |pat| - i] == pat[|pat| - (j + |pat| - i)..]
  {
    var k := j + |pat| - i;
    forall m | 0 <= m < k ensures pat[..k][m] == pat[|pat| - k..][m] {
      assert s[i..i + |pat|][m] == s[i + m];
      assert s[j..j + |pat|][i - j + m] == s[i + m];
    }
  }

  /** For a pattern that cannot overlap itself, `replace` on
      "x + pat + y", where x holds no occurrence, keeps x, drops the
      occurrence and carries on in y. */
  lemma RemoveAllJoin(x: string, pat: string, y: string)
    requires pat != [] && NoBorder(pat) && !Contains(x, pat)
    ensures RemoveAll(x + pat + y, pat) == x + RemoveAll(y, pat)
  {
    var s := x + pat + y;
    assert s[|x|..|x| + |pat|] == pat;
    forall j | 0 <= j < |x| && j + |pat| <= |x| ensures !OccursAt(s, pat, j) {
      assert x[j..j + |pat|] == s[j..j + |pat|];
      assert !OccursAt(x, pat, j);
    }
    forall j | 0 <= j < |x| < j + |pat| ensures !OccursAt(s, pat, j) {
      if OccursAt(s, pat, j) {
        OverlapBorder(s, pat, j, |x|);
        assert false;
      }
    }
    RemoveAllLeftmost(x, pat, y);
  }
}
