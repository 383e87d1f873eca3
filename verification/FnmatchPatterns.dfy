/**
 What the patterns of picoarch/libretro-common/compat/compat_fnmatch.c stand for, stated on strings, without
 tokens: each construct of the subset of section 2.13 of the POSIX Shell Command Language, and malformed patterns.
 */
module FnmatchPatterns {
  import opened Fnmatch

  /** `rl_fnmatch` returns 0. */
  ghost predicate Recognises(pattern: string, str: string) {
    InLanguage(Parse(pattern, 0), str)
  }

  lemma RecognisesHere(pattern: string, str: string)
    ensures Recognises(pattern, str) <==> Here(pattern, 0, str, 0)
  {
    hide Parse, Matches, InLanguage;
    LanguageIsMatches(Parse(pattern, 0), str);
    assert str[0..] == str;
  }

  /** No character of its own meaning. */
  predicate Plain(q: string) {
    forall k :: 0 <= k < |q| ==> q[k] !in {'*', '?', '[', '\\'}
  }

  /** `q` stands in `p` at index `i`. */
  predicate StandsAt(p: string, i: nat, q: string) {
    i + |q| <= |p| && p[i..i + |q|] == q
  }

  /** Plain characters stand for themselves. */
  lemma {:induction false} PlainHere(p: string, c: nat, q: string, str: string, s: nat)
    requires StandsAt(p, c, q) && Plain(q) && s <= |str|
    ensures Here(p, c, str, s) <==> StandsAt(str, s, q) && Here(p, c + |q|, str, s + |q|)
    decreases |q|
  {
    hide Here;
    if q != [] {
      FirstOf(p, c, q);
      MatchesFirst(p, c, str, s);
      if s < |str| {
        PlainHere(p, c + 1, q[1..], str, s + 1);
        TakeOne(str, s, q);
      }
    }
  }

  lemma FirstOf(p: string, c: nat, q: string)
    requires StandsAt(p, c, q) && q != []
    ensures c < |p| && p[c] == q[0] && StandsAt(p, c + 1, q[1..])
  {
    assert p[c] == p[c..c + |q|][0];
    assert p[c + 1..c + |q|] == p[c..c + |q|][1..];
  }

  lemma TakeOne(str: string, s: nat, q: string)
    requires q != [] && s < |str|
    ensures StandsAt(str, s, q) <==> str[s] == q[0] && StandsAt(str, s + 1, q[1..])
  {
    if StandsAt(str, s, q) {
      FirstOf(str, s, q);
    }
    if str[s] == q[0] && StandsAt(str, s + 1, q[1..]) {
      assert str[s..s + |q|] == [str[s]] + str[s + 1..s + |q|];
      assert q == [q[0]] + q[1..];
    }
  }

  /** A plain pattern recognises itself and nothing else. */
  lemma PlainPattern(q: string, str: string)
    requires Plain(q)
    ensures Recognises(q, str) <==> str == q
  {
    hide Here, Recognises;
    RecognisesHere(q, str);
    PlainHere(q, 0, q, str, 0);
    if StandsAt(str, 0, q) {
      NothingLeft(q, str, |q|);
    }
  }

  /** The pattern from `c` on matches some rest of the string. */
  ghost predicate SomeRest(p: string, c: nat, str: string)
    requires c <= |p|
  {
    exists k :: 0 <= k <= |str| && Here(p, c, str, k)
  }

  /** A star: what follows it matches some rest of the string. */
  lemma StarHere(p: string, c: nat, str: string)
    requires c < |p| && p[c] == '*'
    ensures Here(p, c, str, 0) <==> SomeRest(p, c + 1, str)
  {
    hide Parse, Matches;
    ParseStar(p, c);
    SuffixesOfRest(Parse(p, c + 1), str, 0);
    if SomeRest(p, c + 1, str) {
      var k :| 0 <= k <= |str| && Here(p, c + 1, str, k);
      assert Matches(Parse(p, c + 1), str[k..]);
    }
    if SomeSuffix(Parse(p, c + 1), str, 0) {
      var k :| 0 <= k <= |str| && Matches(Parse(p, c + 1), str[k..]);
      assert Here(p, c + 1, str, k);
    }
  }

  lemma LastPart(p: string, q: string, str: string, k: nat)
    requires p == ['*'] + q && Plain(q) && k <= |str|
    ensures Here(p, 1, str, k) <==> k + |q| == |str| && str[k..] == q
  {
    hide Here, Plain;
    assert p[1..1 + |q|] == q;
    PlainHere(p, 1, q, str, k);
    if StandsAt(str, k, q) {
      NothingLeft(p, str, k + |q|);
    }
    if k + |q| == |str| {
      assert str[k..k + |q|] == str[k..];
    }
  }

  /** A star in front: everything that ends so. */
  lemma EndsWith(q: string, str: string)
    requires Plain(q)
    ensures Recognises(['*'] + q, str) <==> |q| <= |str| && str[|str| - |q|..] == q
  {
    hide Here, Recognises, Plain;
    var p := ['*'] + q;
    RecognisesHere(p, str);
    StarHere(p, 0, str);
    if SomeRest(p, 1, str) {
      var k :| 0 <= k <= |str| && Here(p, 1, str, k);
      LastPart(p, q, str, k);
    }
    if |q| <= |str| {
      LastPart(p, q, str, |str| - |q|);
    }
  }

  /** A star behind: everything that begins so. */
  lemma BeginsWith(q: string, str: string)
    requires Plain(q)
    ensures Recognises(q + ['*'], str) <==> q <= str
  {
    hide Here, Recognises;
    var p := q + ['*'];
    RecognisesHere(p, str);
    assert p[0..0 + |q|] == q;
    PlainHere(p, 0, q, str, 0);
    if StandsAt(str, 0, q) {
      LastStar(p, str, |q|);
    }
  }

  lemma LastStar(p: string, str: string, s: nat)
    requires p != [] && p[|p| - 1] == '*' && s <= |str|
    ensures Here(p, |p| - 1, str, s)
  {
    hide Matches, Parse;
    ParseStar(p, |p| - 1);
    NothingParsed(p);
    StarAtEnd(str, s);
  }

  /** A question mark: every string of one character. */
  lemma OneCharacter(str: string)
    ensures Recognises("?", str) <==> |str| == 1
  {
    hide Here, Recognises;
    RecognisesHere("?", str);
    MatchesFirst("?", 0, str, 0);
    if str != [] {
      NothingLeft("?", str, 1);
    }
  }

  /** Brackets: one of the characters between them, each for itself, ranges and negation too. */
  lemma OneOfSet(cs: string, str: string)
    requires ']' !in cs
    ensures Recognises(['['] + cs + [']'], str) <==> |str| == 1 && str[0] in cs
  {
    hide Here, Recognises, Bracket;
    var p := ['['] + cs + [']'];
    RecognisesHere(p, str);
    BracketAt(p, 1, |p| - 1);
    MatchesFirst(p, 0, str, 0);
    assert p[1..|p| - 1] == cs;
    if str != [] {
      NothingLeft(p, str, 1);
    }
  }

  lemma BracketAt(p: string, i: nat, j: nat)
    requires i <= j <= |p| && (j < |p| ==> p[j] == ']') && forall k :: i <= k < j ==> p[k] != ']'
    ensures Bracket(p, i) == j
  {
  }

  /** A backslash in front of every character. */
  function Escaped(s: string): (e: string)
    ensures |e| == 2 * |s|
  {
    if s == [] then [] else ['\\', s[0]] + Escaped(s[1..])
  }

  lemma {:induction false} EscapedHere(p: string, c: nat, q: string, str: string, s: nat)
    requires c <= |p| && p[c..] == Escaped(q) && s <= |str|
    ensures Here(p, c, str, s) <==> str[s..] == q
    decreases |q|
  {
    hide Here;
    if q == [] {
      NothingLeft(p, str, s);
    } else {
      assert p[c] == p[c..][0] && p[c + 1] == p[c..][1] && p[c + 2..] == p[c..][2..];
      MatchesFirst(p, c, str, s);
      if s < |str| {
        EscapedHere(p, c + 2, q[1..], str, s + 1);
        assert str[s..] == [str[s]] + str[s + 1..] && q == [q[0]] + q[1..];
      }
    }
  }

  /** Escaped, any string stands for itself and nothing else. */
  lemma EscapedPattern(q: string, str: string)
    ensures Recognises(Escaped(q), str) <==> str == q
  {
    hide Here, Recognises;
    RecognisesHere(Escaped(q), str);
    assert Escaped(q)[0..] == Escaped(q) && str[0..] == str;
    EscapedHere(Escaped(q), 0, q, str, 0);
  }

  /** A bracket that is not closed, or a backslash at the end, behind plain characters: nothing at all. */
  lemma MalformedPattern(q: string, cs: string, str: string)
    requires Plain(q) && ']' !in cs
    ensures !Recognises(q + ['['] + cs, str)
    ensures !Recognises(q + ['\\'], str)
  {
    hide Here, Recognises, Bracket;
    var open, dangling := q + ['['] + cs, q + ['\\'];
    RecognisesHere(open, str);
    RecognisesHere(dangling, str);
    assert open[0..0 + |q|] == q && dangling[0..0 + |q|] == q;
    PlainHere(open, 0, q, str, 0);
    PlainHere(dangling, 0, q, str, 0);
    if StandsAt(str, 0, q) {
      BracketAt(open, |q| + 1, |open|);
      MatchesFirst(open, |q|, str, |q|);
      MatchesFirst(dangling, |q|, str, |q|);
    }
  }
}
