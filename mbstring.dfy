/**
 * `mb_substr` over codepoints, following the clamping rules of PHP 8's
 * mbstring extension. PHP integers are 64-bit; offsets and lengths here are
 * unbounded, which only differs for values near PHP_INT_MIN.
 */
module MbString {
  import opened Wrappers
  import opened Affixes

  function Min(a: int, b: int): int { if a <= b then a else b }
  function Max(a: int, b: int): int { if a <= b then b else a }

  /**
   * The first codepoint kept, as the documentation describes it: a
   * negative offset counts from the end and stops at the start.
   */
  function SubstrStart(n: nat, offset: int): (start: nat)
    ensures start <= n
  {
    if offset < 0 then Max(0, n + offset) else Min(offset, n)
  }

  /**
   * One past the last codepoint kept: a missing length runs to the end, a
   * negative one stops that many codepoints before the end but never before
   * the start, a positive one is cut off at the end.
   */
  function SubstrEnd(n: nat, offset: int, length: Option<int>): (end: nat)
    ensures SubstrStart(n, offset) <= end <= n
  {
    var start := SubstrStart(n, offset);
    match length
    case None => n
    case Some(len) => if len < 0 then Max(start, n + len) else Min(n, start + len)
  }

  /**
   * `mb_substr($s, $from, $length)`, written as the extension computes it:
   * first the real start, then the real length, then the cut, which yields
   * the empty string for a start at or past the end.
   */
  function MbSubstr(s: string, from: int, length: Option<int>): (r: string)
    ensures r == s[SubstrStart(|s|, from)..SubstrEnd(|s|, from, length)]
  {
    var n := |s|;
    var realFrom: nat := if from >= 0 then from else if -from < n then n + from else 0;
    var realLen: nat :=
      match length
      case None => n
      case Some(len) =>
        if len >= 0 then len
        else if realFrom < n && -len < n - realFrom then (n - realFrom) + len
        else 0;
    if realFrom >= n then []
    else if length.None? || realLen > n - realFrom then s[realFrom..]
    else s[realFrom..realFrom + realLen]
  }

  /** The result never has more codepoints than the input, nor than a non-negative length asks for. */
  lemma SubstrLength(s: string, from: int, length: Option<int>)
    ensures |MbSubstr(s, from, length)| <= |s|
    ensures length.Some? && length.value >= 0 ==> |MbSubstr(s, from, length)| <= length.value
  {
  }

  /** An offset at or past the end gives the empty string, whatever the length. */
  lemma SubstrPastEnd(s: string, from: int, length: Option<int>)
    requires from >= |s|
    ensures MbSubstr(s, from, length) == []
  {
  }

  /** A negative length only shortens: the result is a prefix of the run to the end. */
  lemma SubstrNegativeLength(s: string, from: int, len: int)
    requires len < 0
    ensures HasPrefix(MbSubstr(s, from, None), MbSubstr(s, from, Some(len)))
    ensures |MbSubstr(s, from, Some(len))| == Max(0, |MbSubstr(s, from, None)| + len)
  {
    var start := SubstrStart(|s|, from);
    var end := SubstrEnd(|s|, from, Some(len));
    assert s[start..][..end - start] == s[start..end];
  }

  /** A negative offset that stays inside the string keeps that many trailing codepoints. */
  lemma SubstrNegativeOffset(s: string, from: int)
    requires -|s| <= from < 0
    ensures MbSubstr(s, from, None) == s[|s| + from..]
    ensures HasSuffix(s, MbSubstr(s, from, None))
  {
  }

  /** Cutting at any codepoint index and joining the two parts gives back the string. */
  lemma SubstrSplit(s: string, k: nat)
    ensures MbSubstr(s, 0, Some(k)) + MbSubstr(s, k, None) == s
  {
    if k <= |s| {
      assert s[..k] + s[k..] == s;
    }
  }

  /**
   * Removing a known prefix or suffix, as `trim` does it. The suffix form
   * needs a non-empty `c`: a length of `-0` is a length of 0 and keeps nothing.
   */
  lemma SubstrDropEnds(s: string, c: string)
    requires 0 < |c| <= |s|
    ensures MbSubstr(s, |c|, None) == s[|c|..]
    ensures MbSubstr(s, 0, Some(-|c|)) == s[..|s| - |c|]
  {
  }

  /** The number of bytes UTF-8 spends on one codepoint. */
  function Utf8Width(c: char): (w: nat)
    ensures 1 <= w <= 4
    ensures w == 1 <==> c as int < 0x80
  {
    if c as int < 0x80 then 1
    else if c as int < 0x800 then 2
    else if c as int < 0x1_0000 then 3
    else 4
  }

  /** `strlen`: the length in bytes of the UTF-8 encoding. */
  function ByteLength(s: string): (n: nat)
    ensures |s| <= n <= 4 * |s|
  {
    if s == [] then 0 else Utf8Width(s[0]) + ByteLength(s[1..])
  }

  /** Codepoints and bytes agree exactly on ASCII text, and only there. */
  lemma {:induction false} ByteLengthAscii(s: string)
    ensures ByteLength(s) == |s| <==> forall i :: 0 <= i < |s| ==> s[i] as int < 0x80
  {
    if s != [] {
      ByteLengthAscii(s[1..]);
      assert forall i :: 1 <= i < |s| ==> s[i] == s[1..][i - 1];
    }
  }
}
