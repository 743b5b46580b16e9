/**
 * `strtr($s, $replace_pairs)`, the array form used by `Str::tr()`.
 *
 * PHP scans the subject from left to right. At each position it tries the
 * keys from the longest possible length down to one codepoint and takes the
 * first length whose prefix is a key; the key's value is emitted and the
 * scan resumes after the key, so emitted text is never looked at again. When
 * no key matches, one codepoint is copied. Empty keys are ignored.
 *
 * PHP compares bytes; on well-formed UTF-8 a key can only match at a
 * codepoint boundary and a longer key in bytes is a longer key in codepoints,
 * so the scan is stated on codepoints.
 */
module StrTr {
  import opened Wrappers
  import opened Affixes

  /** A key that `strtr` may use at the start of `s`. */
  predicate IsMatch(s: string, pairs: map<string, string>, k: string) {
    k in pairs && k != [] && HasPrefix(s, k)
  }

  /**
   * The key of length at most `len` that matches at the start of `s`,
   * trying the longest first.
   */
  function LongestKeyUpTo(s: string, pairs: map<string, string>, len: nat): (k: Option<string>)
    requires len <= |s|
    ensures k.Some? ==> IsMatch(s, pairs, k.value) && |k.value| <= len
    ensures k.Some? ==> forall k' :: IsMatch(s, pairs, k') && |k'| <= len ==> |k'| <= |k.value|
    ensures k.None? ==> forall k' :: IsMatch(s, pairs, k') ==> |k'| > len
  {
    if len == 0 then None
    else if s[..len] in pairs then Some(s[..len])
    else LongestKeyUpTo(s, pairs, len - 1)
  }

  /** The longest non-empty key that is a prefix of `s`, if there is one. */
  function LongestKey(s: string, pairs: map<string, string>): (k: Option<string>)
    ensures k.Some? ==> IsMatch(s, pairs, k.value)
    ensures k.Some? ==> forall k' :: IsMatch(s, pairs, k') ==> |k'| <= |k.value|
    ensures k.None? <==> forall k' :: !IsMatch(s, pairs, k')
  {
    LongestKeyUpTo(s, pairs, |s|)
  }

  /** The left-to-right, longest-key-first replacement scan. */
  function Translate(s: string, pairs: map<string, string>): (r: string)
    ensures (forall k :: k in pairs ==> k == []) ==> r == s
    ensures (forall k :: k in pairs ==> |pairs[k]| == |k|) ==> |r| == |s|
    decreases |s|
  {
    if s == [] then []
    else match LongestKey(s, pairs)
      case Some(k) => pairs[k] + Translate(s[|k|..], pairs)
      case None => [s[0]] + Translate(s[1..], pairs)
  }

  /**
   * The other step of the scan: where no key matches, one codepoint is
   * copied and the scan resumes at the next one.
   */
  lemma TranslateCopy(s: string, pairs: map<string, string>)
    requires s != [] && forall k :: !IsMatch(s, pairs, k)
    ensures Translate(s, pairs) == [s[0]] + Translate(s[1..], pairs)
  {
  }

  /** A subject in which no key occurs comes back unchanged. */
  lemma {:induction false} TranslateNoOccurrence(s: string, pairs: map<string, string>)
    ensures (forall k :: k in pairs && k != [] ==> !Occurs(k, s)) ==> Translate(s, pairs) == s
    decreases |s|
  {
    if s != [] && forall k :: k in pairs && k != [] ==> !Occurs(k, s) {
      assert s[0..] == s;
      forall k | k in pairs
        ensures !IsMatch(s, pairs, k)
      {
        assert !Occurs(k, s) || k == [];
      }
      forall k | k in pairs && k != []
        ensures !Occurs(k, s[1..])
      {
        forall i | 0 <= i <= |s[1..]|
          ensures s[1..][i..] == s[i + 1..]
        {
        }
      }
      TranslateNoOccurrence(s[1..], pairs);
      assert [s[0]] + s[1..] == s;
    }
  }

  /** One codepoint through a table whose keys are single codepoints. */
  function MapChar(c: char, pairs: map<string, string>): string {
    if [c] in pairs then pairs[[c]] else [c]
  }

  /**
   * A reference definition for tables of single-codepoint keys: every
   * codepoint is replaced on its own, as `str_replace` would do it one key
   * at a time without touching replacement text.
   */
  function MapChars(s: string, pairs: map<string, string>): string {
    if s == [] then [] else MapChar(s[0], pairs) + MapChars(s[1..], pairs)
  }

  /** With keys of one codepoint the longest-key scan is the per-codepoint map. */
  lemma {:induction false} TranslateSingleCodepointKeys(s: string, pairs: map<string, string>)
    ensures (forall k :: k in pairs ==> |k| <= 1) ==> Translate(s, pairs) == MapChars(s, pairs)
    decreases |s|
  {
    if s != [] && forall k :: k in pairs ==> |k| <= 1 {
      assert s[..1] == [s[0]];
      assert [s[0]] in pairs ==> IsMatch(s, pairs, [s[0]]);
      TranslateSingleCodepointKeys(s[1..], pairs);
    }
  }

  /**
   * One step of the scan: the longest key at the start is replaced and the
   * scan resumes right after it, so the replacement text is never scanned.
   */
  lemma {:induction false} TranslateStep(s: string, pairs: map<string, string>, k: string)
    requires IsMatch(s, pairs, k)
    requires forall k' :: IsMatch(s, pairs, k') ==> |k'| <= |k|
    ensures Translate(s, pairs) == pairs[k] + Translate(s[|k|..], pairs)
  {
    var found := LongestKey(s, pairs);
    assert found.Some?;
    assert found.value[..] == s[..|k|] == k;
  }
}
