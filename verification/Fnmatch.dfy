/**
 `rl_fnmatch` of picoarch/libretro-common/compat/compat_fnmatch.c.  A C string is the sequence of its
 characters; reading the terminator is being at its end.
 */
module Fnmatch {

  const FNM_NOMATCH: int := 1

  /** What a pattern is made of; `Malformed` is a set without its bracket or a trailing backslash. */
  datatype Token = Star | Any | OneOf(chars: string) | Literal(c: char) | Malformed

  /** Index of the first `]` from `i` on, or the length. */
  function Bracket(p: string, i: nat): (j: nat)
    requires i <= |p|
    ensures i <= j <= |p| && (j < |p| ==> p[j] == ']')
    ensures forall k :: i <= k < j ==> p[k] != ']'
    decreases |p| - i
  {
    if i == |p| || p[i] == ']' then i else Bracket(p, i + 1)
  }

  function Parse(p: string, i: nat): seq<Token>
    requires i <= |p|
    decreases |p| - i
  {
    if i == |p| then []
    else if p[i] == '*' then [Star] + Parse(p, i + 1)
    else if p[i] == '?' then [Any] + Parse(p, i + 1)
    else if p[i] == '[' then
      var j := Bracket(p, i + 1);
      if j == |p| then [Malformed] else [OneOf(p[i + 1..j])] + Parse(p, j + 1)
    else if p[i] == '\\' then
      if i + 1 == |p| then [Malformed] else [Literal(p[i + 1])] + Parse(p, i + 2)
    else [Literal(p[i])] + Parse(p, i + 1)
  }

  // ----- the language of a token list

  /** A piece of the string that a token stands for. */
  predicate Accepts(t: Token, piece: string) {
    match t
    case Star => true
    case Any => |piece| == 1
    case OneOf(chars) => |piece| == 1 && piece[0] in chars
    case Literal(c) => piece == [c]
    case Malformed => false
  }

  function Concat(pieces: seq<string>): string {
    if pieces == [] then [] else pieces[0] + Concat(pieces[1..])
  }

  ghost predicate Splits(tokens: seq<Token>, s: string, pieces: seq<string>) {
    |pieces| == |tokens| && Concat(pieces) == s && forall k :: 0 <= k < |tokens| ==> Accepts(tokens[k], pieces[k])
  }

  /** The whole string can be cut into pieces, one for each token. */
  ghost predicate InLanguage(tokens: seq<Token>, s: string) {
    exists pieces :: Splits(tokens, s, pieces)
  }

  /** The same, token by token. */
  ghost predicate Matches(tokens: seq<Token>, s: string)
    decreases |tokens|
  {
    if tokens == [] then s == []
    else if tokens[0] == Star then exists k :: 0 <= k <= |s| && Matches(tokens[1..], s[k..])
    else s != [] && Accepts(tokens[0], s[..1]) && Matches(tokens[1..], s[1..])
  }

  lemma {:induction false} MatchesSplits(tokens: seq<Token>, s: string) returns (pieces: seq<string>)
    requires Matches(tokens, s)
    ensures Splits(tokens, s, pieces)
    decreases |tokens|
  {
    if tokens == [] {
      pieces := [];
    } else {
      var k := 1;
      if tokens[0] == Star {
        k :| 0 <= k <= |s| && Matches(tokens[1..], s[k..]);
      }
      var rest := MatchesSplits(tokens[1..], s[k..]);
      pieces := [s[..k]] + rest;
      assert pieces[1..] == rest && s == s[..k] + s[k..];
    }
  }

  lemma {:induction false} SplitsMatches(tokens: seq<Token>, s: string, pieces: seq<string>)
    requires Splits(tokens, s, pieces)
    ensures Matches(tokens, s)
    decreases |tokens|
  {
    if tokens != [] {
      var k := |pieces[0]|;
      assert s[..k] == pieces[0] && s[k..] == Concat(pieces[1..]);
      SplitsMatches(tokens[1..], s[k..], pieces[1..]);
    }
  }

  /** The declarative language and the token-by-token one are the same. */
  lemma LanguageIsMatches(tokens: seq<Token>, s: string)
    ensures InLanguage(tokens, s) <==> Matches(tokens, s)
  {
    if Matches(tokens, s) {
      var pieces := MatchesSplits(tokens, s);
    }
    if InLanguage(tokens, s) {
      var pieces :| Splits(tokens, s, pieces);
      SplitsMatches(tokens, s, pieces);
    }
  }

  /** One star or several in a row: the rest has to match some suffix. */
  lemma StarStar(tokens: seq<Token>, s: string)
    ensures Matches([Star] + tokens, s) <==> exists k :: 0 <= k <= |s| && Matches(tokens, s[k..])
    ensures Matches([Star] + ([Star] + tokens), s) <==> Matches([Star] + tokens, s)
  {
    assert ([Star] + tokens)[1..] == tokens && ([Star] + ([Star] + tokens))[1..] == [Star] + tokens;
    if Matches([Star] + tokens, s) {
      assert s[0..] == s;
    }
    if Matches([Star] + ([Star] + tokens), s) {
      var k :| 0 <= k <= |s| && Matches([Star] + tokens, s[k..]);
      var j :| 0 <= j <= |s[k..]| && Matches(tokens, s[k..][j..]);
      assert s[k..][j..] == s[k + j..];
    }
  }

  lemma MatchesOne(t: Token, tokens: seq<Token>, s: string)
    requires t != Star
    ensures Matches([t] + tokens, s) <==> s != [] && Accepts(t, s[..1]) && Matches(tokens, s[1..])
  {
    assert ([t] + tokens)[1..] == tokens;
  }

  /** The suffixes of `s` from `from` on. */
  ghost predicate SomeSuffix(tokens: seq<Token>, s: string, from: nat) {
    exists k :: from <= k <= |s| && Matches(tokens, s[k..])
  }

  lemma SuffixesOfRest(tokens: seq<Token>, s: string, from: nat)
    requires from <= |s|
    ensures Matches([Star] + tokens, s[from..]) <==> SomeSuffix(tokens, s, from)
  {
    StarStar(tokens, s[from..]);
    if SomeSuffix(tokens, s, from) {
      var k :| from <= k <= |s| && Matches(tokens, s[k..]);
      assert s[from..][k - from..] == s[k..];
    }
    if exists k :: 0 <= k <= |s[from..]| && Matches(tokens, s[from..][k..]) {
      var k :| 0 <= k <= |s[from..]| && Matches(tokens, s[from..][k..]);
      assert s[from..][k..] == s[from + k..];
    }
  }

  // ----- the code

  /** Scans a set for the character: the loop behind `[`. */
  method ScanSet(p: string, start: nat, ch: char) returns (c: nat, charmatch: bool)
    requires start <= |p|
    ensures c == Bracket(p, start)
    ensures c < |p| ==> (charmatch <==> ch in p[start..c])
  {
    c, charmatch := start, false;
    while c < |p| && p[c] != ']'
      invariant start <= c <= |p| && Bracket(p, c) == Bracket(p, start)
      invariant charmatch <==> ch in p[start..c]
    {
      assert p[start..c + 1] == p[start..c] + [p[c]];
      if !charmatch && p[c] == ch {
        charmatch := true;
      }
      c := c + 1;
    }
  }

  /** The pattern from `c` on matches the string from `s` on. */
  ghost predicate Here(p: string, c: nat, str: string, s: nat)
    requires c <= |p| && s <= |str|
  {
    Matches(Parse(p, c), str[s..])
  }

  /** The pattern from `c0` on against the string from `s0` on. */
  method Match(p: string, c0: nat, str: string, s0: nat) returns (rv: int)
    requires c0 <= |p| && s0 <= |str|
    ensures rv == 0 || rv == FNM_NOMATCH
    ensures rv == 0 <==> Here(p, c0, str, s0)
    decreases |p| - c0
  {
    hide Here, Parse, Bracket;
    var c, s := c0, s0;
    while c < |p|
      invariant c0 <= c <= |p| && s0 <= s <= |str|
      invariant Here(p, c, str, s) == Here(p, c0, str, s0)
      decreases |p| - c
    {
      if p[c] == '*' {
        rv := MatchStar(p, c, str, s);
        return;
      }
      MatchesFirst(p, c, str, s);
      if s == |str| {
        return FNM_NOMATCH;
      }
      if p[c] == '[' {
        var charmatch;
        var open := c;
        c, charmatch := ScanSet(p, c + 1, str[s]);
        if c == |p| || !charmatch {
          return FNM_NOMATCH;
        }
      } else if p[c] == '\\' {
        c := c + 1;
        if c == |p| {
          return FNM_NOMATCH;
        }
        if p[c] != str[s] {
          return FNM_NOMATCH;
        }
      } else if p[c] != '?' {
        if p[c] != str[s] {
          return FNM_NOMATCH;
        }
      }
      s := s + 1;
      c := c + 1;
    }
    NothingLeft(p, str, s);
    return if s == |str| then 0 else FNM_NOMATCH;
  }

  lemma NothingLeft(p: string, str: string, s: nat)
    requires s <= |str|
    ensures Here(p, |p|, str, s) <==> s == |str|
  {
  }

  /** What one round of the pattern loop comes to when the pattern does not have a star here. */
  lemma MatchesFirst(p: string, c: nat, str: string, s: nat)
    requires c < |p| && p[c] != '*' && s <= |str|
    ensures s == |str| ==> !Here(p, c, str, s)
    ensures s < |str| && p[c] == '?' ==> (Here(p, c, str, s) <==> Here(p, c + 1, str, s + 1))
    ensures s < |str| && p[c] == '[' ==>
              var j := Bracket(p, c + 1);
              (Here(p, c, str, s) <==>
                 j < |p| && str[s] in p[c + 1..j] && Here(p, j + 1, str, s + 1))
    ensures s < |str| && p[c] == '\\' ==>
              (Here(p, c, str, s) <==>
                 c + 1 < |p| && p[c + 1] == str[s] && Here(p, c + 2, str, s + 1))
    ensures s < |str| && p[c] !in {'?', '[', '\\'} ==>
              (Here(p, c, str, s) <==> p[c] == str[s] && Here(p, c + 1, str, s + 1))
  {
    hide Matches, Bracket;
    var t, n := First(p, c);
    MatchesOne(t, if t == Malformed then [] else Parse(p, n), str[s..]);
    if s < |str| {
      assert str[s..][..1] == [str[s]] && str[s..][1..] == str[s + 1..];
    }
  }

  /** The token at `c`, which is not a star, and where the next one starts. */
  lemma First(p: string, c: nat) returns (t: Token, n: nat)
    requires c < |p| && p[c] != '*'
    ensures t != Star && c < n <= |p|
    ensures t == Malformed ==> Parse(p, c) == [t] + []
    ensures t != Malformed ==> Parse(p, c) == [t] + Parse(p, n)
    ensures match t
            case Any => p[c] == '?' && n == c + 1
            case OneOf(chars) => p[c] == '[' && n == Bracket(p, c + 1) + 1 && n <= |p| && chars == p[c + 1..n - 1]
            case Literal(ch) => if p[c] == '\\' then n == c + 2 && ch == p[c + 1]
                                else p[c] !in {'?', '['} && n == c + 1 && ch == p[c]
            case Malformed => (p[c] == '[' && Bracket(p, c + 1) == |p|) || (p[c] == '\\' && c + 1 == |p|)
            case Star => false
  {
    if p[c] == '?' {
      t, n := Any, c + 1;
    } else if p[c] == '[' {
      var j := Bracket(p, c + 1);
      if j == |p| {
        t, n := Malformed, |p|;
      } else {
        t, n := OneOf(p[c + 1..j]), j + 1;
      }
    } else if p[c] == '\\' {
      if c + 1 == |p| {
        t, n := Malformed, |p|;
      } else {
        t, n := Literal(p[c + 1]), c + 2;
      }
    } else {
      t, n := Literal(p[c]), c + 1;
    }
  }

  /** A star, or several: the rest of the pattern is tried on one suffix after the other. */
  method MatchStar(p: string, c0: nat, str: string, s0: nat) returns (rv: int)
    requires c0 < |p| && p[c0] == '*' && s0 <= |str|
    ensures rv == 0 || rv == FNM_NOMATCH
    ensures rv == 0 <==> Here(p, c0, str, s0)
    decreases |p| - c0, 0
  {
    hide Matches, SomeSuffix, Parse;
    var c := c0 + 1;
    ParseStar(p, c0);
    StarAtEnd(str, s0);
    NothingParsed(p);
    while c < |p| && p[c] == '*'
      invariant c0 < c <= |p|
      invariant Matches([Star] + Parse(p, c), str[s0..]) == Here(p, c0, str, s0)
      decreases |p| - c
    {
      ParseStar(p, c);
      StarStar(Parse(p, c + 1), str[s0..]);
      c := c + 1;
    }
    if c == |p| {
      return 0;
    }
    var s := s0;
    SuffixesOfRest(Parse(p, c), str, s0);
    while true
      invariant s0 <= s <= |str|
      invariant SomeSuffix(Parse(p, c), str, s) == Here(p, c0, str, s0)
      decreases |str| - s
    {
      NextSuffix(Parse(p, c), str, s);
      if s == |str| {
        MatchesFirst(p, c, str, s);
        return FNM_NOMATCH;
      }
      rv := Match(p, c, str, s);
      if rv == 0 {
        return;
      }
      s := s + 1;
    }
  }

  lemma ParseStar(p: string, c: nat)
    requires c < |p| && p[c] == '*'
    ensures Parse(p, c) == [Star] + Parse(p, c + 1)
  {
  }

  lemma NothingParsed(p: string)
    ensures Parse(p, |p|) == []
  {
  }

  lemma StarAtEnd(str: string, s: nat)
    requires s <= |str|
    ensures Matches([Star] + [], str[s..])
  {
    StarStar([], str[s..]);
    assert Matches([], str[s..][|str| - s..]);
  }

  lemma NextSuffix(tokens: seq<Token>, s: string, from: nat)
    requires from <= |s|
    ensures SomeSuffix(tokens, s, from) <==> Matches(tokens, s[from..]) || SomeSuffix(tokens, s, from + 1)
    ensures from == |s| ==> !SomeSuffix(tokens, s, from + 1)
  {
    hide Matches;
  }

  /** The whole function: 0 exactly for the strings of the pattern's language. */
  method RlFnmatch(pattern: string, str: string) returns (rv: int)
    ensures rv == if InLanguage(Parse(pattern, 0), str) then 0 else 1
  {
    rv := Match(pattern, 0, str, 0);
    LanguageIsMatches(Parse(pattern, 0), str);
    assert str[0..] == str;
  }
}
