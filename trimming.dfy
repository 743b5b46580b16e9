/**
 * What `Str::trim()` computes, as functions: the loop body of one pass over
 * the list of "characters" (each a non-empty codepoint string), and the
 * repetition of passes until one pass strips nothing.
 */
module Trimming {
  import opened Affixes

  /** The listed characters that match neither end of `s`. */
  predicate NoEdgeMatch(s: string, characters: seq<string>) {
    forall i :: 0 <= i < |characters| ==>
      !HasPrefix(s, characters[i]) && !HasSuffix(s, characters[i])
  }

  /** The inner `while (str_starts_with(...))` loop: strip `c` from the start while it matches. */
  function StripPrefixes(s: string, c: string): (r: string)
    requires c != []
    ensures HasSuffix(s, r) && !HasPrefix(r, c)
    ensures r == s <==> !HasPrefix(s, c)
    decreases |s|
  {
    if HasPrefix(s, c) then StripPrefixes(s[|c|..], c) else s
  }

  /** The inner `while (str_ends_with(...))` loop: strip `c` from the end while it matches. */
  function StripSuffixes(s: string, c: string): (r: string)
    requires c != []
    ensures HasPrefix(s, r) && !HasSuffix(r, c)
    ensures r == s <==> !HasSuffix(s, c)
    decreases |s|
  {
    if HasSuffix(s, c) then StripSuffixes(s[..|s| - |c|], c) else s
  }

  /** One turn of the start loop: the rest of the loop strips from what is left. */
  lemma StripPrefixesStep(s: string, c: string)
    requires c != [] && HasPrefix(s, c)
    ensures StripPrefixes(s[|c|..], c) == StripPrefixes(s, c)
  {
  }

  /** One turn of the end loop: the rest of the loop strips from what is left. */
  lemma StripSuffixesStep(s: string, c: string)
    requires c != [] && HasSuffix(s, c)
    ensures StripSuffixes(s[..|s| - |c|], c) == StripSuffixes(s, c)
  {
  }

  /** The body of the `foreach` for one character: its starts, then its ends. */
  function StripBoth(s: string, c: string): (r: string)
    requires c != []
    ensures IsInfix(r, s)
    ensures r == s <==> !HasPrefix(s, c) && !HasSuffix(s, c)
  {
    var p := StripPrefixes(s, c);
    var r := StripSuffixes(p, c);
    assert s[|s| - |p|..|s|] == p && p[0..|r|] == r;
    InfixTrans(r, p, s);
    assert |p| == |s| ==> s[0..] == s;
    r
  }

  /** One pass of the `do ... while` body: every listed character in order. */
  function Pass(s: string, characters: seq<string>): (r: string)
    requires [] !in characters
    ensures IsInfix(r, s)
    decreases |characters|
  {
    if characters == [] then InfixRefl(s); s
    else
      var t := StripBoth(s, characters[0]);
      var r := Pass(t, characters[1..]);
      InfixTrans(r, t, s);
      r
  }

  /**
   * The whole trim: passes are repeated until one leaves the string as it
   * was. A pass that strips something shortens the string, which is why
   * this terminates.
   */
  function Trimmed(s: string, characters: seq<string>): (r: string)
    requires [] !in characters
    ensures IsInfix(r, s)
    decreases |s|
  {
    var t := Pass(s, characters);
    if t == s then InfixRefl(s); s
    else
      InfixLength(t, s);
      var r := Trimmed(t, characters);
      InfixTrans(r, t, s);
      r
  }

  /** One step of the pass: the pass from entry `i` on is entry `i` followed by the pass from `i + 1` on. */
  lemma PassStep(s: string, characters: seq<string>, i: nat)
    requires [] !in characters && i < |characters|
    ensures [] !in characters[i..] && [] !in characters[i + 1..]
    ensures Pass(s, characters[i..]) == Pass(StripBoth(s, characters[i]), characters[i + 1..])
  {
    assert characters[i..][1..] == characters[i + 1..];
  }

  /** A pass that changed the string leaves the rest of the trim to the shorter string. */
  lemma TrimmedAfterPass(s: string, characters: seq<string>)
    requires [] !in characters
    requires |Pass(s, characters)| < |s|
    ensures Trimmed(Pass(s, characters), characters) == Trimmed(s, characters)
  {
  }

  /** A string with no listed character at either end passes through a pass unchanged. */
  lemma {:induction false} PassUnchanged(s: string, characters: seq<string>)
    requires [] !in characters
    requires NoEdgeMatch(s, characters)
    ensures Pass(s, characters) == s
    decreases |characters|
  {
    if characters != [] {
      PassUnchanged(s, characters[1..]);
    }
  }

  /** A pass that changes nothing found no listed character at either end. */
  lemma {:induction false} PassUnchangedOnlyIf(s: string, characters: seq<string>)
    requires [] !in characters
    requires Pass(s, characters) == s
    ensures NoEdgeMatch(s, characters)
    decreases |characters|
  {
    if characters != [] {
      var t := StripBoth(s, characters[0]);
      InfixLength(Pass(t, characters[1..]), t);
      InfixLength(t, s);
      PassUnchangedOnlyIf(s, characters[1..]);
    }
  }

  /** The result is a contiguous piece of the input. */
  lemma {:induction false} TrimmedIsInfix(s: string, characters: seq<string>)
    requires [] !in characters
    ensures IsInfix(Trimmed(s, characters), s)
    decreases |s|
  {
    var t := Pass(s, characters);
    if t == s {
      InfixRefl(s);
    } else {
      InfixLength(t, s);
      TrimmedIsInfix(t, characters);
      InfixTrans(Trimmed(t, characters), t, s);
    }
  }

  /** The result neither starts nor ends with any listed character. */
  lemma {:induction false} TrimmedNoEdgeMatch(s: string, characters: seq<string>)
    requires [] !in characters
    ensures NoEdgeMatch(Trimmed(s, characters), characters)
    decreases |s|
  {
    var t := Pass(s, characters);
    if t == s {
      PassUnchangedOnlyIf(s, characters);
    } else {
      InfixLength(t, s);
      TrimmedNoEdgeMatch(t, characters);
    }
  }

  /** Trimming leaves a string alone exactly when no listed character is at either end of it. */
  lemma TrimmedFixpoint(s: string, characters: seq<string>)
    requires [] !in characters
    ensures Trimmed(s, characters) == s <==> NoEdgeMatch(s, characters)
  {
    if NoEdgeMatch(s, characters) {
      PassUnchanged(s, characters);
    } else {
      TrimmedNoEdgeMatch(s, characters);
    }
  }

  /** Trimming twice is trimming once. */
  lemma TrimmedIdempotent(s: string, characters: seq<string>)
    requires [] !in characters
    ensures Trimmed(Trimmed(s, characters), characters) == Trimmed(s, characters)
  {
    TrimmedNoEdgeMatch(s, characters);
    TrimmedFixpoint(Trimmed(s, characters), characters);
  }

  /** An empty list strips nothing. */
  lemma TrimmedNoCharacters(s: string)
    ensures Trimmed(s, []) == s
  {
  }

  /** The first codepoint of a piece of `s` is listed when every codepoint of `s` is. */
  lemma ListedHead(r: string, s: string, characters: seq<string>)
    requires IsInfix(r, s)
    requires forall i :: 0 <= i < |s| ==> [s[i]] in characters
    ensures r != [] ==> [r[0]] in characters && HasPrefix(r, [r[0]])
  {
    if r != [] {
      InfixChars(r, s, 0);
      assert r[..1] == [r[0]];
    }
  }

  /**
   * When every codepoint of `s` is listed on its own, nothing survives: the
   * result is a piece of `s`, and any first codepoint it kept would be an
   * edge match.
   */
  lemma TrimmedAllListed(s: string, characters: seq<string>)
    requires [] !in characters
    requires AllListed(s, characters)
    ensures Trimmed(s, characters) == []
  {
    var r := Trimmed(s, characters);
    TrimmedIsInfix(s, characters);
    TrimmedNoEdgeMatch(s, characters);
    ListedHead(r, s, characters);
  }

  // Lists of single codepoints, as in the default list: there `trim`
  // agrees with a plain strip of listed codepoints from both ends, which is
  // what PHP's byte-wise `trim()` does for ASCII lists.

  /** Every entry is exactly one codepoint long. */
  predicate SingleCodepoints(characters: seq<string>) {
    forall k :: 0 <= k < |characters| ==> |characters[k]| == 1
  }

  /** Every codepoint of `u` is listed on its own. */
  predicate AllListed(u: string, characters: seq<string>) {
    forall k :: 0 <= k < |u| ==> [u[k]] in characters
  }

  /** Strip listed codepoints from the start. */
  function TrimStart(s: string, characters: seq<string>): (r: string)
    ensures HasSuffix(s, r)
    ensures r != [] ==> [r[0]] !in characters
  {
    if s != [] && [s[0]] in characters then
      var r := TrimStart(s[1..], characters);
      assert s[1..][|s| - 1 - |r|..] == s[|s| - |r|..];
      r
    else s
  }

  /** Strip listed codepoints from the end. */
  function TrimEnd(s: string, characters: seq<string>): (r: string)
    ensures HasPrefix(s, r)
    ensures r != [] ==> [r[|r| - 1]] !in characters
  {
    if s != [] && [s[|s| - 1]] in characters then
      var r := TrimEnd(s[..|s| - 1], characters);
      assert s[..|s| - 1][..|r|] == s[..|r|];
      r
    else s
  }

  /** The reference: listed codepoints stripped from both ends. */
  function TrimCodepoints(s: string, characters: seq<string>): string {
    TrimEnd(TrimStart(s, characters), characters)
  }

  /** `r` is what is left of `s` after removing listed codepoints from its ends. */
  ghost predicate Peeled(r: string, s: string, characters: seq<string>) {
    exists i, j :: 0 <= i <= j <= |s| && r == s[i..j]
      && AllListed(s[..i], characters) && AllListed(s[j..], characters)
  }

  lemma PeeledRefl(s: string, characters: seq<string>)
    ensures Peeled(s, s, characters)
  {
    assert s == s[0..|s|] && s[..0] == [] && s[|s|..] == [];
  }

  lemma ListedConcat(a: string, b: string, characters: seq<string>)
    requires AllListed(a, characters) && AllListed(b, characters)
    ensures AllListed(a + b, characters)
  {
    forall k | 0 <= k < |a + b|
      ensures [(a + b)[k]] in characters
    {
      if k < |a| {
        assert (a + b)[k] == a[k];
      } else {
        assert (a + b)[k] == b[k - |a|];
      }
    }
  }

  /** How the pieces of a piece of `s` sit in `s`. */
  lemma SliceOfSlice(s: string, i: nat, j: nat, i': nat, j': nat)
    requires i <= j <= |s| && i' <= j' <= j - i
    ensures s[..i + i'] == s[..i] + s[i..j][..i']
    ensures s[i + j'..] == s[i..j][j'..] + s[j..]
    ensures s[i..j][i'..j'] == s[i + i'..i + j']
  {
    forall k | 0 <= k < j' - i'
      ensures s[i..j][i'..j'][k] == s[i + i'..i + j'][k]
    {
    }
  }

  lemma PeeledTrans(u: string, t: string, s: string, characters: seq<string>)
    requires Peeled(u, t, characters) && Peeled(t, s, characters)
    ensures Peeled(u, s, characters)
  {
    var i', j' :| 0 <= i' <= j' <= |t| && u == t[i'..j']
      && AllListed(t[..i'], characters) && AllListed(t[j'..], characters);
    var i, j :| 0 <= i <= j <= |s| && t == s[i..j]
      && AllListed(s[..i], characters) && AllListed(s[j..], characters);
    SliceOfSlice(s, i, j, i', j');
    ListedConcat(s[..i], t[..i'], characters);
    ListedConcat(t[j'..], s[j..], characters);
  }

  /** Dropping a listed first codepoint peels it. */
  lemma PeeledDropFirst(s: string, characters: seq<string>)
    requires s != [] && [s[0]] in characters
    ensures Peeled(s[1..], s, characters)
  {
    assert s[1..] == s[1..|s|] && s[..1] == [s[0]] && s[|s|..] == [];
  }

  /** Dropping a listed last codepoint peels it. */
  lemma PeeledDropLast(s: string, characters: seq<string>)
    requires s != [] && [s[|s| - 1]] in characters
    ensures Peeled(s[..|s| - 1], s, characters)
  {
    var n := |s| - 1;
    assert s[..n] == s[0..n] && s[..0] == [] && s[n..] == [s[n]];
  }

  lemma {:induction false} StripPrefixesPeeled(s: string, c: string, characters: seq<string>)
    requires c in characters && |c| == 1
    ensures Peeled(StripPrefixes(s, c), s, characters)
    decreases |s|
  {
    if HasPrefix(s, c) {
      assert [s[0]] == s[..1] == c;
      PeeledDropFirst(s, characters);
      StripPrefixesPeeled(s[1..], c, characters);
      PeeledTrans(StripPrefixes(s[1..], c), s[1..], s, characters);
    } else {
      PeeledRefl(s, characters);
    }
  }

  lemma {:induction false} StripSuffixesPeeled(s: string, c: string, characters: seq<string>)
    requires c in characters && |c| == 1
    ensures Peeled(StripSuffixes(s, c), s, characters)
    decreases |s|
  {
    if HasSuffix(s, c) {
      var n := |s| - 1;
      assert [s[n]] == s[n..] == c;
      PeeledDropLast(s, characters);
      StripSuffixesPeeled(s[..n], c, characters);
      PeeledTrans(StripSuffixes(s[..n], c), s[..n], s, characters);
    } else {
      PeeledRefl(s, characters);
    }
  }

  lemma {:induction false} PassPeeled(s: string, sub: seq<string>, characters: seq<string>)
    requires forall k :: 0 <= k < |sub| ==> sub[k] in characters && |sub[k]| == 1
    ensures [] !in sub && Peeled(Pass(s, sub), s, characters)
    decreases |sub|
  {
    if sub == [] {
      PeeledRefl(s, characters);
    } else {
      var c := sub[0];
      var p := StripPrefixes(s, c);
      var t := StripSuffixes(p, c);
      StripPrefixesPeeled(s, c, characters);
      StripSuffixesPeeled(p, c, characters);
      PeeledTrans(t, p, s, characters);
      PassPeeled(t, sub[1..], characters);
      PeeledTrans(Pass(t, sub[1..]), t, s, characters);
    }
  }

  lemma {:induction false} TrimmedPeeled(s: string, characters: seq<string>)
    requires SingleCodepoints(characters)
    ensures [] !in characters && Peeled(Trimmed(s, characters), s, characters)
    decreases |s|
  {
    PassPeeled(s, characters, characters);
    var t := Pass(s, characters);
    if t != s {
      InfixLength(t, s);
      TrimmedPeeled(t, characters);
      PeeledTrans(Trimmed(t, characters), t, s, characters);
    }
  }

  lemma {:induction false} TrimStartListed(u: string, v: string, characters: seq<string>)
    requires AllListed(u, characters)
    requires v != [] ==> [v[0]] !in characters
    ensures TrimStart(u + v, characters) == v
  {
    if u != [] {
      assert (u + v)[1..] == u[1..] + v;
      TrimStartListed(u[1..], v, characters);
    } else {
      assert u + v == v;
    }
  }

  lemma {:induction false} TrimEndListed(v: string, u: string, characters: seq<string>)
    requires AllListed(u, characters)
    requires v != [] ==> [v[|v| - 1]] !in characters
    ensures TrimEnd(v + u, characters) == v
  {
    if u != [] {
      var n := |u| - 1;
      assert (v + u)[..|v + u| - 1] == v + u[..n];
      assert (v + u)[|v + u| - 1] == u[n];
      TrimEndListed(v, u[..n], characters);
    } else {
      assert v + u == v;
    }
  }

  /** A piece of `s` whose ends are not listed, cut out between listed codepoints, is what `TrimCodepoints` leaves. */
  lemma TrimCodepointsPeeled(s: string, i: nat, j: nat, characters: seq<string>)
    requires i <= j <= |s|
    requires AllListed(s[..i], characters) && AllListed(s[j..], characters)
    requires s[i..j] != [] ==> [s[i..j][0]] !in characters && [s[i..j][j - i - 1]] !in characters
    ensures TrimCodepoints(s, characters) == s[i..j]
  {
    var r := s[i..j];
    assert s[i..] == r + s[j..];
    assert s == s[..i] + s[i..];
    if i == j {
      ListedConcat(s[..i], s[j..], characters);
      assert s + [] == s;
      TrimStartListed(s, [], characters);
    } else {
      TrimStartListed(s[..i], r + s[j..], characters);
      TrimEndListed(r, s[j..], characters);
    }
  }

  /** With single-codepoint entries, no edge match means the end codepoints are not listed. */
  lemma EdgesUnlisted(r: string, characters: seq<string>)
    requires NoEdgeMatch(r, characters)
    ensures r != [] ==> [r[0]] !in characters && [r[|r| - 1]] !in characters
  {
    if r != [] {
      assert r[..1] == [r[0]];
      assert r[|r| - 1..] == [r[|r| - 1]];
    }
  }

  /**
   * With a list of single codepoints, `trim` is the plain strip of listed
   * codepoints from both ends, whatever the order of the list.
   */
  lemma TrimmedSingleCodepoints(s: string, characters: seq<string>)
    requires SingleCodepoints(characters)
    ensures [] !in characters
    ensures Trimmed(s, characters) == TrimCodepoints(s, characters)
  {
    var i, j := TrimmedCut(s, characters);
    TrimmedNoEdgeMatch(s, characters);
    EdgesUnlisted(Trimmed(s, characters), characters);
    TrimCodepointsPeeled(s, i, j, characters);
  }

  /** Where the result of `trim` sits in its input, when the entries are single codepoints. */
  lemma TrimmedCut(s: string, characters: seq<string>) returns (i: nat, j: nat)
    requires SingleCodepoints(characters)
    ensures [] !in characters
    ensures i <= j <= |s| && Trimmed(s, characters) == s[i..j]
    ensures AllListed(s[..i], characters) && AllListed(s[j..], characters)
  {
    TrimmedPeeled(s, characters);
    i, j :| 0 <= i <= j <= |s| && Trimmed(s, characters) == s[i..j]
      && AllListed(s[..i], characters) && AllListed(s[j..], characters);
  }

  /**
   * With a list of single codepoints, `trim` removes exactly a border of
   * listed codepoints: any cut whose outside is listed and whose inside
   * neither starts nor ends with a listed codepoint is the result.
   */
  lemma TrimmedBetween(s: string, i: nat, j: nat, characters: seq<string>)
    requires SingleCodepoints(characters)
    requires i <= j <= |s|
    requires AllListed(s[..i], characters) && AllListed(s[j..], characters)
    requires s[i..j] != [] ==> [s[i..j][0]] !in characters && [s[i..j][j - i - 1]] !in characters
    ensures [] !in characters
    ensures Trimmed(s, characters) == s[i..j]
  {
    TrimmedSingleCodepoints(s, characters);
    TrimCodepointsPeeled(s, i, j, characters);
  }

  /** The same, for a string given as a listed border, a piece and a listed border. */
  lemma TrimmedAround(u: string, r: string, v: string, characters: seq<string>)
    requires SingleCodepoints(characters)
    requires AllListed(u, characters) && AllListed(v, characters)
    requires r != [] ==> [r[0]] !in characters && [r[|r| - 1]] !in characters
    ensures [] !in characters
    ensures Trimmed(u + r + v, characters) == r
  {
    var s := u + r + v;
    var i, j := |u|, |u| + |r|;
    assert s[..i] == u && s[i..j] == r && s[j..] == v;
    TrimmedBetween(s, i, j, characters);
  }
}
