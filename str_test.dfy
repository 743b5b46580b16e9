/**
 * The concrete cases of the test suite, stated against the model: each
 * lemma fixes one data string and the expected result.
 */
module StrTest {
  import opened Wrappers
  import opened Fisharebest
  import opened Affixes
  import Html
  import MbString
  import StrTr
  import Trimming

  /** Construction and conversion back to a string lose nothing. */
  lemma ConstructorRoundTrip(s: string)
    ensures Str(s).ToString() == s
    ensures Str.Make(s).ToString() == s
    ensures Str.Make(s) == Str(s)
  {
  }

  /** `length()` counts the cedilla as one codepoint although UTF-8 spends two bytes on it. */
  lemma LengthCedilla(s: string)
    requires s == "C with cedilla: \U{00C7}"
    ensures Str(s).Length() == 17
    ensures MbString.ByteLength(s) == 18
  {
    CedillaBytes(s);
  }

  lemma CedillaBytes(s: string)
    requires s == "C with cedilla: \U{00C7}"
    ensures MbString.ByteLength(s) == 18
  {
    assert s == s[..16] + [s[16]];
    ByteLengthAppend(s[..16], [s[16]]);
    AsciiBytes(s);
  }

  lemma AsciiBytes(s: string)
    requires s == "C with cedilla: \U{00C7}"
    ensures MbString.ByteLength(s[..16]) == 16
  {
    MbString.ByteLengthAscii(s[..16]);
  }

  lemma {:induction false} ByteLengthAppend(a: string, b: string)
    ensures MbString.ByteLength(a + b) == MbString.ByteLength(a) + MbString.ByteLength(b)
  {
    if a == [] {
      assert a + b == b;
    } else {
      assert (a + b)[1..] == a[1..] + b;
      ByteLengthAppend(a[1..], b);
    }
  }

  /** Escaping one codepoint on its own. */
  lemma EscapeOne(c: char)
    ensures Html.Escape([c]) == Html.EscapeChar(c)
  {
    assert [c][1..] == [];
  }

  /** A tag is escaped bracket by bracket; the name inside is left as it is. */
  lemma EscapeTag(name: string)
    requires Html.Escape(name) == name
    ensures Html.Escape(['<'] + name + ['>']) == "&lt;" + name + "&gt;"
  {
    var t := ['<'] + name + ['>'];
    assert t[1..] == name + ['>'];
    Html.EscapeAppend(name, ['>']);
    EscapeOne('>');
  }

  lemma EscapePlainText(t: string)
    requires t == "script" || t == "/script" || t == "evil()"
    ensures Html.Escape(t) == t
  {
    Html.EscapePlain(t);
  }

  /** The two tags of the markup data string. */
  lemma EscapeScriptTag(t: string, name: string)
    requires (t == "<script>" && name == "script") || (t == "</script>" && name == "/script")
    ensures Html.Escape(t) == "&lt;" + name + "&gt;"
  {
    assert t == ['<'] + name + ['>'];
    EscapePlainText(name);
    EscapeTag(name);
  }

  /** The markup data string is an opening tag, a call and a closing tag. */
  lemma ScriptPieces(s: string)
    requires s == "<script>evil()</script>"
    ensures s == s[..8] + s[8..14] + s[14..]
    ensures s[..8] == "<script>" && s[8..14] == "evil()" && s[14..] == "</script>"
  {
  }

  /** `e()` on the markup data string: both tags are neutralised, the text between them is kept. */
  lemma EscapeExamples(s: string)
    requires s == "<script>evil()</script>"
    ensures Str(s).E().str == ("&lt;" + "script" + "&gt;") + "evil()" + ("&lt;" + "/script" + "&gt;")
  {
    ScriptPieces(s);
    var open, body, close := s[..8], s[8..14], s[14..];
    EscapeScriptTag(open, "script");
    EscapePlainText(body);
    EscapeScriptTag(close, "/script");
    Html.EscapeAppend(open + body, close);
    Html.EscapeAppend(open, body);
  }

  /** `e()` on the empty data string. */
  lemma EscapeEmpty()
    ensures Str("").E() == Str("")
  {
  }

  /** `substr` on "Foo" for some of the offsets and lengths the suite tries. */
  lemma SubstrFoo()
    ensures Str("Foo").Substr(-1) == Str("o")
    ensures Str("Foo").Substr(0, Some(-1)) == Str("Fo")
    ensures Str("Foo").Substr(1, Some(1)) == Str("o")
    ensures Str("Foo").Substr(-2, Some(1)) == Str("o")
    ensures Str("Foo").Substr(2, Some(-2)) == Str("")
    ensures Str("Foo").Substr(0, Some(0)) == Str("")
    ensures Str("Foo").Substr(2) == Str("o")
  {
    assert "Foo"[2..] == "o";
    assert "Foo"[..2] == "Fo";
  }

  /** `tr(['o' => 'O'])` on "foo". */
  lemma TrFoo()
    ensures Str("foo").Tr(map["o" := "O"]) == Str("fOO")
  {
    var pairs := map["o" := "O"];
    assert StrTr.MapChars("foo", pairs) == "fOO" by {
      assert "foo" == ['f'] + "oo";
      assert "oo" == ['o'] + "o";
      assert ['f'] !in pairs;
    }
  }

  /** At one position the longest key wins, and replaced text is not scanned again. */
  lemma TrLongestAndNoRescan()
    ensures StrTr.Translate("ab", map["a" := "1", "ab" := "2"]) == "2"
    ensures StrTr.Translate("ab", map["a" := "b", "b" := "c"]) == "bc"
  {
    var longest := map["a" := "1", "ab" := "2"];
    assert "ab"[..2] == "ab";
    StrTr.TranslateStep("ab", longest, "ab");
    var chain := map["a" := "b", "b" := "c"];
    StrTr.TranslateSingleCodepointKeys("ab", chain);
    assert "ab" == ['a'] + "b";
  }

  /** `trim(['<', '>'])` on the markup data string strips one bracket from each end. */
  lemma TrimmedBrackets(s: string, cs: seq<string>)
    requires s == "<script>evil()</script>" && cs == ["<", ">"]
    ensures [] !in cs
    ensures Trimming.Trimmed(s, cs) == s[1..|s| - 1]
  {
    var n := |s|;
    assert Trimming.SingleCodepoints(cs);
    assert Trimming.AllListed(s[..1], cs) by { assert s[..1][0] == '<'; }
    assert Trimming.AllListed(s[n - 1..], cs) by { assert s[n - 1..][0] == '>'; }
    assert s[1..n - 1][0] == 's' && s[1..n - 1][n - 3] == 't';
    Trimming.TrimmedBetween(s, 1, n - 1, cs);
  }

  /** The same through the method, which runs the source's loops. */
  method TrimBrackets(s: string) returns (r: Str)
    requires s == "<script>evil()</script>"
    ensures r.str == s[1..|s| - 1]
  {
    var cs := ["<", ">"];
    TrimmedBrackets(s, cs);
    r := Str(s).Trim(cs);
  }

  /** With the default list, white space around "Foo" goes and "Foo" stays. */
  lemma TrimmedPaddedFoo(s: string)
    requires s == " \tFoo\n"
    ensures Trimming.Trimmed(s, Utf8Whitespace) == "Foo"
  {
    assert s == " \t" + "Foo" + "\n";
    PaddedFooBorders();
    Trimming.TrimmedAround(" \t", "Foo", "\n", Utf8Whitespace);
  }

  lemma PaddedFooBorders()
    ensures Trimming.SingleCodepoints(Utf8Whitespace)
    ensures Trimming.AllListed(" \t", Utf8Whitespace) && Trimming.AllListed("\n", Utf8Whitespace)
    ensures ['F'] !in Utf8Whitespace && ['o'] !in Utf8Whitespace
  {
  }

  /**
   * With entries of several codepoints, a string made only of listed entries
   * can keep a remainder: "abcd" is "ab" followed by "cd", but the earlier
   * entry "abc" is stripped first and leaves "d", which matches nothing.
   */
  lemma TrimmedKeepsRemainder(a: char, b: char, c: char, d: char)
    ensures [] !in [[a, b, c], [a, b], [c, d]]
    ensures Trimming.Trimmed([a, b] + [c, d], [[a, b, c], [a, b], [c, d]]) == [d]
  {
    var s, cs := [a, b] + [c, d], [[a, b, c], [a, b], [c, d]];
    assert s[..3] == cs[0] && s[..2] == cs[1] && s[2..] == cs[2] && s[3..] == [d];
    RemainderUnlisted([d], cs);
    assert Trimming.Pass(s, cs) == [d] by {
      RemainderFirstPass(s, cs);
      Trimming.PassUnchanged([d], cs[1..]);
    }
    Trimming.TrimmedAfterPass(s, cs);
    Trimming.TrimmedFixpoint([d], cs);
  }

  /** The first entry strips the first three codepoints and leaves the rest to the later entries. */
  lemma RemainderFirstPass(s: string, cs: seq<string>)
    requires |s| == 4 && cs == [s[..3], s[..2], s[2..]]
    ensures [] !in cs
    ensures Trimming.Pass(s, cs) == Trimming.Pass(s[3..], cs[1..])
  {
    var d := s[3..];
    assert HasPrefix(s, cs[0]) && s[|cs[0]|..] == d;
    assert !HasPrefix(d, cs[0]) && !HasSuffix(d, cs[0]);
  }

  /** A single codepoint matches no entry of two codepoints or more. */
  lemma RemainderUnlisted(d: string, cs: seq<string>)
    requires |d| == 1 && |cs| == 3 && forall k :: 0 <= k < 3 ==> |cs[k]| >= 2
    ensures [] !in cs && [] !in cs[1..]
    ensures Trimming.NoEdgeMatch(d, cs) && Trimming.NoEdgeMatch(d, cs[1..])
  {
  }

  /**
   * The same entries in the reverse order strip everything: "cd" goes from
   * the end first, then "ab" from the start.
   */
  lemma TrimmedReversedOrder(a: char, b: char, c: char, d: char)
    requires a != c
    ensures [] !in [[c, d], [a, b], [a, b, c]]
    ensures Trimming.Trimmed([a, b] + [c, d], [[c, d], [a, b], [a, b, c]]) == []
  {
    var s, cs := [a, b] + [c, d], [[c, d], [a, b], [a, b, c]];
    assert Trimming.Pass(s, cs) == [] by {
      ReversedFirstEntry(s, cs);
      ReversedRest([a, b], cs);
    }
    Trimming.TrimmedAfterPass(s, cs);
  }

  /** The entry "cd" does not start the string and is stripped from its end once. */
  lemma ReversedFirstEntry(s: string, cs: seq<string>)
    requires |s| == 4 && s[0] != s[2] && |cs| == 3 && cs[0] == s[2..] && cs[1] == s[..2] && |cs[2]| == 3
    ensures [] !in cs
    ensures Trimming.Pass(s, cs) == Trimming.Pass(s[..2], cs[1..])
  {
    var ab := s[..2];
    assert !HasPrefix(s, cs[0]) && HasSuffix(s, cs[0]);
    assert s[..|s| - |cs[0]|] == ab;
    assert !HasSuffix(ab, cs[0]);
  }

  /** "ab" strips itself, and nothing is left for the last entry. */
  lemma ReversedRest(ab: string, cs: seq<string>)
    requires |ab| == 2 && |cs| == 3 && cs[1] == ab && |cs[0]| == 2 && |cs[2]| == 3
    ensures [] !in cs
    ensures Trimming.Pass(ab, cs[1..]) == []
  {
    assert HasPrefix(ab, cs[1]) && ab[|cs[1]|..] == [];
    assert cs[1..][1..] == [cs[2]];
  }
}
