/**
 Character-level string primitives the bot relies on: the whitespace class of
 Python's `str.isspace`, the case mapping of `str.lower` (restricted to the
 Latin and basic Cyrillic capitals), and `str.strip()` without arguments.
 */
module Text {

  /** The characters Python's `str.isspace` accepts. */
  predicate IsSpace(c: char)
  {
    || c == ' ' || c == '\t' || c == '\n' || c == '\r'
    || c == '\U{000B}' || c == '\U{000C}'
    || ('\U{001C}' <= c <= '\U{001F}')
    || c == '\U{0085}' || c == '\U{00A0}' || c == '\U{1680}'
    || ('\U{2000}' <= c <= '\U{200A}')
    || c == '\U{2028}' || c == '\U{2029}' || c == '\U{202F}'
    || c == '\U{205F}' || c == '\U{3000}'
  }

  /** True of a capital letter that `LowerChar` changes. */
  predicate IsUpper(c: char)
  {
    || ('A' <= c <= 'Z')
    || ('\U{0400}' <= c <= '\U{042F}')
  }

  /** Python's lower-case mapping of one character, on the Latin capitals
      A-Z, the Cyrillic capitals А-Я (U+0410-U+042F) and the Cyrillic
      capitals Ѐ-Џ (U+0400-U+040F), such as Ё and Ї; every other character
      is left as it is. */
  function LowerChar(c: char): (l: char)
    ensures IsUpper(c) <==> l != c
    ensures !IsUpper(l)
    ensures IsSpace(l) <==> IsSpace(c)
  {
    if 'A' <= c <= 'Z' then (c as int + 0x20) as char
    else if '\U{0410}' <= c <= '\U{042F}' then (c as int + 0x20) as char
    else if '\U{0400}' <= c <= '\U{040F}' then (c as int + 0x50) as char
    else c
  }

  /** `s.lower()`, character by character. */
  function Lower(s: string): (l: string)
    ensures |l| == |s|
    ensures forall i :: 0 <= i < |s| ==> l[i] == LowerChar(s[i])
  {
    if s == [] then [] else [LowerChar(s[0])] + Lower(s[1..])
  }

  lemma {:induction false} LowerConcat(a: string, b: string)
    ensures Lower(a + b) == Lower(a) + Lower(b)
  {
    var l := Lower(a + b);
    assert forall i :: 0 <= i < |a + b| ==> l[i] == (Lower(a) + Lower(b))[i];
  }

  /** Lowering twice is lowering once. */
  lemma {:induction false} LowerIdempotent(s: string)
    ensures Lower(Lower(s)) == Lower(s)
  {
    var l := Lower(s);
    assert forall i :: 0 <= i < |s| ==> Lower(l)[i] == l[i];
  }

  /** `Lower(s)` is the string whose characters are those of `s` lowered. */
  lemma LowerPointwise(s: string, u: string)
    requires |s| == |u| && forall i :: 0 <= i < |s| ==> LowerChar(s[i]) == u[i]
    ensures Lower(s) == u
  {
  }

  predicate AllSpace(s: string)
  {
    forall i :: 0 <= i < |s| ==> IsSpace(s[i])
  }

  /** Neither end of `s` is whitespace. */
  predicate Stripped(s: string)
  {
    s == [] || (!IsSpace(s[0]) && !IsSpace(s[|s| - 1]))
  }

  /** `r` is what is left of `s` once its first `a` characters and
      everything after `r`, all of it whitespace, are cut off. */
  predicate CutAt(s: string, a: int, r: string)
  {
    && 0 <= a && a + |r| <= |s|
    && s[a..a + |r|] == r
    && (forall k :: 0 <= k < a ==> IsSpace(s[k]))
    && (forall k :: a + |r| <= k < |s| ==> IsSpace(s[k]))
  }

  /** The index of the first character at or after `i` that is not
      whitespace, or `|s|` when there is none. */
  function SkipSpace(s: string, i: nat): (a: nat)
    requires i <= |s|
    ensures i <= a <= |s|
    ensures forall k :: i <= k < a ==> IsSpace(s[k])
    ensures a == |s| || !IsSpace(s[a])
    decreases |s| - i
  {
    if i < |s| && IsSpace(s[i]) then SkipSpace(s, i + 1) else i
  }

  /** The end of `s[lo..j]` once its trailing whitespace is cut off. */
  function SkipSpaceBack(s: string, lo: nat, j: nat): (e: nat)
    requires lo <= j <= |s|
    ensures lo <= e <= j
    ensures forall k :: e <= k < j ==> IsSpace(s[k])
    ensures e == lo || !IsSpace(s[e - 1])
    decreases j
  {
    if lo < j && IsSpace(s[j - 1]) then SkipSpaceBack(s, lo, j - 1) else j
  }

  /** `s.strip()`: whitespace removed from both ends. */
  function Strip(s: string): (r: string)
    ensures Stripped(r)
    ensures CutAt(s, SkipSpace(s, 0), r)
  {
    var a := SkipSpace(s, 0);
    s[a..SkipSpaceBack(s, a, |s|)]
  }

  /** Any cut of `s` into leading whitespace, a stripped middle and trailing
      whitespace is the one `Strip` makes. */
  lemma StripUnique(s: string, a: int, m: string)
    requires CutAt(s, a, m) && Stripped(m)
    ensures Strip(s) == m
  {
    var a' := SkipSpace(s, 0);
    if m == [] {
      assert a' == |s|;
    } else {
      assert s[a] == m[0];
      assert s[a + |m| - 1] == m[|m| - 1];
      assert a' == a;
      assert SkipSpaceBack(s, a, |s|) == a + |m|;
    }
  }

  /** Stripping a stripped string changes nothing. */
  lemma StripStripped(s: string)
    requires Stripped(s)
    ensures Strip(s) == s
  {
    assert CutAt(s, 0, s);
    StripUnique(s, 0, s);
  }

  /** `s.strip().strip() == s.strip()`. */
  lemma StripIdempotent(s: string)
    ensures Strip(Strip(s)) == Strip(s)
  {
    StripStripped(Strip(s));
  }

  /** Padding a stripped string with whitespace on either side and stripping
      gives the string back. */
  lemma StripPadded(lead: string, m: string, trail: string)
    requires AllSpace(lead) && AllSpace(trail) && Stripped(m)
    ensures Strip(lead + m + trail) == m
  {
    var s := lead + m + trail;
    assert s[..|lead|] == lead;
    assert s[|lead|..|lead| + |m|] == m;
    assert s[|lead| + |m|..] == trail;
    StripUnique(s, |lead|, m);
  }

  /** Lowering keeps the ends of a string whitespace or not. */
  lemma LowerStripped(s: string)
    requires Stripped(s)
    ensures Stripped(Lower(s))
  {
  }
}
