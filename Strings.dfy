/**
 * String helpers shared by the scanners: substring search, `str.replace(old, new, 1)`,
 * `"sep".join(parts)`, ASCII lower-casing, Python's `\s` class and the letter
 * equivalences Python's `re.IGNORECASE` applies.
 */
module Strings {
  import opened Wrappers

  /** `t` occurs in `s` at position `i`. */
  predicate At(s: string, t: string, i: int)
  {
    0 <= i && i + |t| <= |s| && s[i..i + |t|] == t
  }

  lemma AtHead(s: string, t: string, i: int)
    requires t != []
    ensures At(s, t, i) ==> s[i] == t[0]
  {
    if At(s, t, i) {
      assert s[i..i + |t|][0] == t[0];
    }
  }

  /** An occurrence of `t` inside `s[lo..hi]` is one inside the slice. */
  lemma AtInSlice(s: string, lo: nat, hi: nat, t: string, q: int)
    requires lo <= hi <= |s| && lo <= q && q + |t| <= hi
    ensures At(s, t, q) <==> At(s[lo..hi], t, q - lo)
  {
    var a, b := s[lo..hi][q - lo..q - lo + |t|], s[q..q + |t|];
    assert |a| == |b|;
    forall k | 0 <= k < |a| ensures a[k] == b[k] { }
    assert a == b;
  }

  /** `t` occurs at the end of `pre + t`. */
  lemma SuffixAt(pre: string, t: string)
    ensures At(pre + t, t, |pre|)
  {
    assert (pre + t)[|pre|..|pre| + |t|] == t;
  }

  /** Adjacent occurrences of `a` and `b` form one of `a + b`. */
  lemma AtConcat(s: string, a: string, b: string, i: int)
    requires At(s, a, i) && At(s, b, i + |a|)
    ensures At(s, a + b, i)
  {
    assert s[i..i + |a| + |b|] == s[i..i + |a|] + s[i + |a|..i + |a| + |b|];
  }

  predicate Contains(s: string, t: string)
  {
    exists i :: 0 <= i <= |s| && At(s, t, i)
  }

  /** The first occurrence of `t` in `s` at or after `from`. */
  function FindFrom(s: string, t: string, from: nat): (r: Option<nat>)
    requires from <= |s|
    ensures r.Some? ==> from <= r.value && At(s, t, r.value)
    ensures r.Some? ==> forall j :: from <= j < r.value ==> !At(s, t, j)
    ensures r.None? ==> forall j :: from <= j ==> !At(s, t, j)
    decreases |s| - from
  {
    if At(s, t, from) then Some(from)
    else if from == |s| then None
    else FindFrom(s, t, from + 1)
  }

  /** An occurrence with none before it, from `from` on, is the one `FindFrom` returns. */
  lemma FindFromFirst(s: string, t: string, from: nat, e: nat)
    requires from <= e && At(s, t, e)
    requires forall j :: from <= j < e ==> !At(s, t, j)
    ensures FindFrom(s, t, from) == Some(e)
  {
  }

  /** The first position at or after `from` holding `c`. */
  function FindChar(s: string, c: char, from: nat): (r: Option<nat>)
    requires from <= |s|
    decreases |s| - from
  {
    if from == |s| then None
    else if s[from] == c then Some(from)
    else FindChar(s, c, from + 1)
  }

  /** `FindChar` returns the first position holding `c`, or nothing when there is none. */
  lemma {:induction false} FindCharSpec(s: string, c: char, from: nat)
    requires from <= |s|
    ensures var r := FindChar(s, c, from);
      && (r.Some? ==> from <= r.value < |s| && s[r.value] == c)
      && (r.Some? ==> forall j :: from <= j < r.value ==> s[j] != c)
      && (r.None? ==> forall j :: from <= j < |s| ==> s[j] != c)
    decreases |s| - from
  {
    if from < |s| && s[from] != c {
      FindCharSpec(s, c, from + 1);
    }
  }

  /** A position holding `c` with none before it, from `from` on, is the one `FindChar` returns. */
  lemma {:induction false} FindCharFirst(s: string, c: char, from: nat, e: nat)
    requires from <= e < |s| && s[e] == c
    requires forall j :: from <= j < e ==> s[j] != c
    ensures FindChar(s, c, from) == Some(e)
    decreases e - from
  {
    if from < e {
      FindCharFirst(s, c, from + 1, e);
    }
  }

  /** Python's `s.replace(old, new, 1)` for a non-empty `old`. */
  function ReplaceFirst(s: string, pattern: string, replacement: string): (r: string)
    requires pattern != []
  {
    match FindFrom(s, pattern, 0)
    case None => s
    case Some(k) => s[..k] + replacement + s[k + |pattern|..]
  }

  /** `k` is the first occurrence of `t` in `s`. */
  predicate FirstAt(s: string, t: string, k: int)
  {
    At(s, t, k) && forall j :: 0 <= j < k ==> !At(s, t, j)
  }

  /** Without an occurrence the text is kept; otherwise the first occurrence is replaced. */
  lemma ReplaceFirstSpec(s: string, pattern: string, replacement: string)
    requires pattern != []
    ensures !Contains(s, pattern) ==> ReplaceFirst(s, pattern, replacement) == s
    ensures Contains(s, pattern) ==>
      exists k :: FirstAt(s, pattern, k) &&
                  ReplaceFirst(s, pattern, replacement) == s[..k] + replacement + s[k + |pattern|..]
  {
    match FindFrom(s, pattern, 0)
    case None =>
    case Some(k) =>
      assert FirstAt(s, pattern, k);
  }

  /** `sep.join(parts)`. */
  function Join(sep: string, parts: seq<string>): string
  {
    if |parts| == 0 then ""
    else if |parts| == 1 then parts[0]
    else parts[0] + sep + Join(sep, parts[1..])
  }

  function LowerChar(c: char): char
  {
    if 'A' <= c <= 'Z' then (c as int + 32) as char else c
  }

  /** `str.lower()` restricted to ASCII letters. */
  function Lower(s: string): (r: string)
    ensures |r| == |s|
    ensures forall i :: 0 <= i < |s| ==> r[i] == LowerChar(s[i])
  {
    if s == [] then [] else [LowerChar(s[0])] + Lower(s[1..])
  }

  /** Python's `\s` for str patterns (the characters for which `str.isspace()` holds). */
  predicate IsSpace(c: char)
  {
    || '\t' <= c <= '\r'
    || '\U{1C}' <= c <= '\U{1F}'
    || c == ' ' || c == '\U{85}' || c == '\U{A0}' || c == '\U{1680}'
    || '\U{2000}' <= c <= '\U{200A}'
    || c == '\U{2028}' || c == '\U{2029}' || c == '\U{202F}' || c == '\U{205F}' || c == '\U{3000}'
  }

  /**
   * Character `c` matches pattern character `p` under `re.IGNORECASE`. Besides the
   * ASCII case pair, Python's `re` lets i match U+0130 and U+0131, s match U+017F
   * and k match U+212A.
   */
  predicate FoldsTo(c: char, p: char)
  {
    || c == p
    || ('a' <= p <= 'z' && c as int == p as int - 32)
    || (p == 'i' && (c == '\U{130}' || c == '\U{131}'))
    || (p == 's' && c == '\U{17F}')
    || (p == 'k' && c == '\U{212A}')
  }

  /** The lower-case ASCII pattern `pat` matches `s` at `i`, ignoring case. */
  predicate AtIgnoreCase(s: string, pat: string, i: int)
  {
    0 <= i && i + |pat| <= |s| && forall k :: 0 <= k < |pat| ==> FoldsTo(s[i + k], pat[k])
  }

  lemma AtIsAtIgnoreCase(s: string, pat: string, i: int)
    requires At(s, pat, i)
    ensures AtIgnoreCase(s, pat, i)
  {
    forall k | 0 <= k < |pat| ensures FoldsTo(s[i + k], pat[k]) {
      assert s[i..i + |pat|][k] == pat[k];
    }
  }

  lemma ConcatAssoc(a: string, b: string, c: string)
    ensures a + b + c == a + (b + c)
  {
  }

  /** No string occurs twice. */
  predicate Distinct(xs: seq<string>)
  {
    forall a, b :: 0 <= a < b < |xs| ==> xs[a] != xs[b]
  }
}
