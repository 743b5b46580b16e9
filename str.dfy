/**
 * `Fisharebest\Str`: an immutable, fluent wrapper around a string. The
 * wrapped string is a sequence of codepoints; every operation returns a new
 * value and leaves the receiver as it was, which a datatype gives for free.
 */
module Fisharebest {
  import opened Wrappers
  import opened Affixes
  import Html
  import MbString
  import StrTr
  import Trimming

  /** The default list of `trim`: the "characters" UTF-8 text treats as white space. */
  const Utf8Whitespace: seq<string> :=
    [" ", "\0", "\n", "\r", "\t", "\U{000B}", "\U{0085}", "\U{2028}", "\U{2029}"]

  /** The codepoints of the default list, each of which is listed on its own. */
  predicate IsWhitespace(c: char) {
    c == ' ' || c == '\0' || c == '\n' || c == '\r' || c == '\t'
    || c == '\U{000B}' || c == '\U{0085}' || c == '\U{2028}' || c == '\U{2029}'
  }

  /** Every entry of the default list is non-empty, and each white-space codepoint is an entry. */
  lemma WhitespaceList()
    ensures [] !in Utf8Whitespace
    ensures forall c :: IsWhitespace(c) ==> [c] in Utf8Whitespace
  {
  }

  /** The wrapped string is the constructor's readonly `$str`. */
  datatype Str = Str(str: string) {

    /** The fluent constructor: wraps the string it is given. */
    static function Make(s: string): (r: Str)
      ensures r.ToString() == s
    {
      Str(s)
    }

    /** `__toString`: the wrapped string, verbatim. */
    function ToString(): (s: string)
      ensures Str(s) == this
    {
      str
    }

    /** `e()`: the string escaped for HTML with `htmlspecialchars`. */
    function E(): (r: Str)
      ensures Html.Unescape(r.str) == str
      ensures forall i :: 0 <= i < |r.str| ==> !Html.IsMarkup(r.str[i])
      ensures |r.str| >= |str|
      ensures r.str == [] <==> str == []
    {
      Html.UnescapeEscape(str);
      Html.EscapeNoMarkup(str);
      Str(Html.Escape(str))
    }

    /** `length()`: `mb_strlen`, which counts codepoints and not bytes. */
    function Length(): (n: nat)
      ensures n <= MbString.ByteLength(str)
      ensures n == MbString.ByteLength(str) <==> forall i :: 0 <= i < |str| ==> str[i] as int < 0x80
    {
      MbString.ByteLengthAscii(str);
      |str|
    }

    /** `substr($offset, $length = null)`: `mb_substr` on the wrapped string. */
    function Substr(offset: int, length: Option<int> := None): (r: Str)
      ensures r.str == str[MbString.SubstrStart(|str|, offset)..MbString.SubstrEnd(|str|, offset, length)]
      ensures |r.str| <= |str|
      ensures offset >= |str| ==> r.str == []
    {
      Str(MbString.MbSubstr(str, offset, length))
    }

    /** `tr($replace_pairs)`: `strtr` with a table of replacements. */
    function Tr(pairs: map<string, string>): (r: Str)
      ensures (forall k :: k in pairs ==> k == []) ==> r == this
      ensures (forall k :: k in pairs ==> |k| <= 1) ==> r.str == StrTr.MapChars(str, pairs)
      ensures (forall k :: k in pairs && k != [] ==> !Occurs(k, str)) ==> r == this
    {
      StrTr.TranslateSingleCodepointKeys(str, pairs);
      StrTr.TranslateNoOccurrence(str, pairs);
      Str(StrTr.Translate(str, pairs))
    }

    /**
     * `trim($characters = UTF8_WHITESPACE)`: strip listed "characters"
     * (codepoint strings, possibly several codepoints long) from both ends
     * until a whole pass over the list strips nothing. An empty entry would
     * make the source loop forever, so the list may not contain one.
     */
    method Trim(characters: seq<string> := Utf8Whitespace) returns (r: Str)
      requires [] !in characters
      ensures r.str == Trimming.Trimmed(str, characters)
      ensures IsInfix(r.str, str)
      ensures Trimming.NoEdgeMatch(r.str, characters)
    {
      var s := str;
      // do { ... } while (!$done): the first pass always runs
      var done := false;
      while !done
        invariant Trimming.Trimmed(s, characters) == Trimming.Trimmed(str, characters)
        invariant done ==> Trimming.Pass(s, characters) == s
        decreases |s| + (if done then 0 else 1)
      {
        var passStart := s;
        done := true;
        for i := 0 to |characters|
          invariant Trimming.Pass(s, characters[i..]) == Trimming.Pass(passStart, characters)
          invariant done ==> s == passStart
          invariant |s| <= |passStart|
          invariant !done ==> |s| < |passStart|
        {
          var character := characters[i];
          var before := s;
          Trimming.PassStep(s, characters, i);
          while HasPrefix(s, character)
            invariant Trimming.StripPrefixes(s, character) == Trimming.StripPrefixes(before, character)
            invariant done ==> s == passStart
            invariant |s| <= |passStart|
            invariant !done ==> |s| < |passStart|
            decreases |s|
          {
            Trimming.StripPrefixesStep(s, character);
            MbString.SubstrDropEnds(s, character);
            s := MbString.MbSubstr(s, |character|, None);
            done := false;
          }
          var afterStarts := s;
          while HasSuffix(s, character)
            invariant Trimming.StripSuffixes(s, character) == Trimming.StripSuffixes(afterStarts, character)
            invariant done ==> s == passStart
            invariant |s| <= |passStart|
            invariant !done ==> |s| < |passStart|
            decreases |s|
          {
            Trimming.StripSuffixesStep(s, character);
            MbString.SubstrDropEnds(s, character);
            s := MbString.MbSubstr(s, 0, Some(-|character|));
            done := false;
          }
        }
        if !done {
          Trimming.TrimmedAfterPass(passStart, characters);
        }
      }
      Trimming.TrimmedIsInfix(str, characters);
      Trimming.TrimmedNoEdgeMatch(str, characters);
      r := Str(s);
    }
  }

  /** With the default list, a string of white space alone trims to nothing. */
  lemma TrimmedWhitespaceOnly(s: string)
    requires forall i :: 0 <= i < |s| ==> IsWhitespace(s[i])
    ensures Trimming.Trimmed(s, Utf8Whitespace) == []
  {
    WhitespaceListed(s);
    Trimming.TrimmedAllListed(s, Utf8Whitespace);
  }

  /** Each codepoint of a white-space string is an entry of the default list. */
  lemma WhitespaceListed(s: string)
    requires forall i :: 0 <= i < |s| ==> IsWhitespace(s[i])
    ensures [] !in Utf8Whitespace
    ensures Trimming.AllListed(s, Utf8Whitespace)
  {
    WhitespaceList();
  }

  /**
   * The default list holds single codepoints only, so the default `trim`
   * strips listed codepoints from both ends, as PHP's `trim()` does for its
   * own byte list.
   */
  lemma TrimmedDefaultStrip(s: string)
    ensures [] !in Utf8Whitespace
    ensures Trimming.Trimmed(s, Utf8Whitespace) == Trimming.TrimCodepoints(s, Utf8Whitespace)
  {
    assert Trimming.SingleCodepoints(Utf8Whitespace);
    Trimming.TrimmedSingleCodepoints(s, Utf8Whitespace);
  }
}
