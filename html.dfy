/**
 * The `htmlspecialchars` translation table used by `Str::e()`: PHP 8.1 and
 * later default to ENT_QUOTES, so both quote characters are escaped, and
 * `double_encode` is on, so an `&` is always escaped even when it already
 * starts an entity.
 */
module Html {
  import opened Affixes

  /** The five codepoints the table rewrites. */
  predicate IsSpecial(c: char) {
    c == '&' || c == '<' || c == '>' || c == '"' || c == '\''
  }

  /** The codepoints that must never appear raw in escaped output. */
  predicate IsMarkup(c: char) {
    c == '<' || c == '>' || c == '"' || c == '\''
  }

  /** The replacement text of one codepoint. */
  function EscapeChar(c: char): (r: string)
    ensures IsSpecial(c) <==> r != [c]
    ensures |r| >= 1 && r[0] == (if IsSpecial(c) then '&' else c)
    ensures forall i :: 0 <= i < |r| ==> !IsMarkup(r[i])
  {
    match c
    case '&' => "&amp;"
    case '<' => "&lt;"
    case '>' => "&gt;"
    case '"' => "&quot;"
    case '\'' => "&#039;"
    case _ => [c]
  }

  /** `htmlspecialchars($s, ENT_QUOTES, 'UTF-8')` on well-formed input. */
  function Escape(s: string): (r: string)
    ensures |r| >= |s|
    ensures s == [] <==> r == []
  {
    if s == [] then [] else EscapeChar(s[0]) + Escape(s[1..])
  }

  /** Escaped text holds no raw markup codepoint: every one of them became an entity. */
  lemma {:induction false} EscapeNoMarkup(s: string)
    ensures forall i :: 0 <= i < |Escape(s)| ==> !IsMarkup(Escape(s)[i])
  {
    if s != [] {
      EscapeNoMarkup(s[1..]);
      var head, tail := EscapeChar(s[0]), Escape(s[1..]);
      forall i | 0 <= i < |head + tail|
        ensures !IsMarkup((head + tail)[i])
      {
        if i >= |head| {
          assert (head + tail)[i] == tail[i - |head|];
        }
      }
    }
  }

  /**
   * The inverse table (what `htmlspecialchars_decode` does for these five
   * entities): each entity becomes its codepoint, anything else is copied.
   */
  function Unescape(s: string): (r: string)
    ensures |r| <= |s|
    decreases |s|
  {
    if s == [] then []
    else if HasPrefix(s, "&amp;") then "&" + Unescape(s[5..])
    else if HasPrefix(s, "&lt;") then "<" + Unescape(s[4..])
    else if HasPrefix(s, "&gt;") then ">" + Unescape(s[4..])
    else if HasPrefix(s, "&quot;") then "\"" + Unescape(s[6..])
    else if HasPrefix(s, "&#039;") then "'" + Unescape(s[6..])
    else [s[0]] + Unescape(s[1..])
  }

  /** Escaping works codepoint by codepoint, so it distributes over concatenation. */
  lemma {:induction false} EscapeAppend(a: string, b: string)
    ensures Escape(a + b) == Escape(a) + Escape(b)
  {
    if a == [] {
      assert a + b == b;
    } else {
      assert (a + b)[1..] == a[1..] + b;
      EscapeAppend(a[1..], b);
    }
  }

  /** Codepoints outside the table are left alone. */
  lemma {:induction false} EscapePlain(s: string)
    requires forall i :: 0 <= i < |s| ==> !IsSpecial(s[i])
    ensures Escape(s) == s
  {
    if s != [] {
      EscapePlain(s[1..]);
    }
  }

  lemma UnescapeAmp(rest: string)
    ensures Unescape("&amp;" + rest) == ['&'] + Unescape(rest)
  {
    var t := "&amp;" + rest;
    assert t[..5] == "&amp;" && t[5..] == rest;
  }

  /** The two four-codepoint entities, `&lt;` and `&gt;`. */
  lemma UnescapeBracket(entity: string, c: char, rest: string)
    requires (entity == "&lt;" && c == '<') || (entity == "&gt;" && c == '>')
    ensures Unescape(entity + rest) == [c] + Unescape(rest)
  {
    var t := entity + rest;
    assert t[..4] == entity && t[4..] == rest;
    assert t[1] == entity[1];
  }

  lemma UnescapeQuot(rest: string)
    ensures Unescape("&quot;" + rest) == ['"'] + Unescape(rest)
  {
    var t := "&quot;" + rest;
    assert t[..6] == "&quot;" && t[6..] == rest;
    assert t[1] == 'q';
  }

  lemma UnescapeApos(rest: string)
    ensures Unescape("&#039;" + rest) == ['\''] + Unescape(rest)
  {
    var t := "&#039;" + rest;
    assert t[..6] == "&#039;" && t[6..] == rest;
    assert t[1] == '#';
  }

  lemma UnescapePlain(c: char, rest: string)
    requires !IsSpecial(c)
    ensures Unescape([c] + rest) == [c] + Unescape(rest)
  {
    var t := [c] + rest;
    assert t[0] == c && t[1..] == rest;
  }

  lemma UnescapeEscapeChar(c: char, rest: string)
    ensures Unescape(EscapeChar(c) + rest) == [c] + Unescape(rest)
  {
    match c
    case '&' => UnescapeAmp(rest);
    case '<' => UnescapeBracket("&lt;", '<', rest);
    case '>' => UnescapeBracket("&gt;", '>', rest);
    case '"' => UnescapeQuot(rest);
    case '\'' => UnescapeApos(rest);
    case _ => UnescapePlain(c, rest);
  }

  /** Decoding undoes escaping, so escaping loses no information. */
  lemma {:induction false} UnescapeEscape(s: string)
    ensures Unescape(Escape(s)) == s
  {
    if s != [] {
      UnescapeEscapeChar(s[0], Escape(s[1..]));
      UnescapeEscape(s[1..]);
      assert [s[0]] + s[1..] == s;
    }
  }
}
