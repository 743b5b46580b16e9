/**
 * Prefix, suffix and infix relations on codepoint strings.
 *
 * The source compares UTF-8 bytes (`str_starts_with`, `str_ends_with`); on
 * well-formed UTF-8 a byte prefix that is itself well-formed is exactly a
 * codepoint prefix, so the relations are stated on codepoints here.
 */
module Affixes {

  /** `s` starts with `p` (the `str_starts_with` test). */
  predicate HasPrefix(s: string, p: string) {
    |p| <= |s| && s[..|p|] == p
  }

  /** `s` ends with `p` (the `str_ends_with` test). */
  predicate HasSuffix(s: string, p: string) {
    |p| <= |s| && s[|s| - |p|..] == p
  }

  /** `t` is a contiguous piece of `s`. */
  ghost predicate IsInfix(t: string, s: string) {
    exists i, j :: 0 <= i <= j <= |s| && s[i..j] == t
  }

  /** `p` occurs somewhere in `s`. */
  ghost predicate Occurs(p: string, s: string) {
    exists i :: 0 <= i <= |s| && HasPrefix(s[i..], p)
  }

  /** `str_starts_with($s, $p)` holds exactly when `s` is `p` followed by something. */
  lemma PrefixConcat(s: string, p: string)
    ensures HasPrefix(s, p) <==> exists t :: s == p + t
  {
    if HasPrefix(s, p) {
      assert s == p + s[|p|..];
    }
    if exists t :: s == p + t {
      var t :| s == p + t;
      assert s[..|p|] == p;
    }
  }

  /** `str_ends_with($s, $p)` holds exactly when `s` is something followed by `p`. */
  lemma SuffixConcat(s: string, p: string)
    ensures HasSuffix(s, p) <==> exists t :: s == t + p
  {
    if HasSuffix(s, p) {
      assert s == s[..|s| - |p|] + p;
    }
    if exists t :: s == t + p {
      var t :| s == t + p;
      assert s[|t|..] == p;
    }
  }

  lemma InfixRefl(s: string)
    ensures IsInfix(s, s)
  {
    assert s[0..|s|] == s;
  }

  lemma InfixTrans(u: string, t: string, s: string)
    requires IsInfix(u, t) && IsInfix(t, s)
    ensures IsInfix(u, s)
  {
    var i, i' :| 0 <= i <= i' <= |t| && t[i..i'] == u;
    var j, j' :| 0 <= j <= j' <= |s| && s[j..j'] == t;
    forall k | 0 <= k < i' - i
      ensures s[j + i + k] == u[k]
    {
      assert u[k] == t[i + k];
    }
    assert s[j + i..j + i'] == u;
  }

  /** An infix is never longer, and one of full length is the whole string. */
  lemma InfixLength(t: string, s: string)
    requires IsInfix(t, s)
    ensures |t| <= |s|
    ensures |t| == |s| ==> t == s
  {
    var i, j :| 0 <= i <= j <= |s| && s[i..j] == t;
    if |t| == |s| {
      assert i == 0;
      assert s[0..|s|] == s;
    }
  }

  /** Every codepoint of an infix is a codepoint of the whole string. */
  lemma InfixChars(t: string, s: string, k: nat)
    requires IsInfix(t, s) && k < |t|
    ensures t[k] in s
  {
    var i, j :| 0 <= i <= j <= |s| && s[i..j] == t;
    assert t[k] == s[i + k];
  }
}
