/**
 `replaceString` and `escapeSingleQuotes` of src/common/utils.c: replacing in place in a buffer that
 holds a C string.
 */
module ReplaceString {
  import opened Memory

  const NUL: char := '\0'

  // ----- C strings in a buffer

  ghost predicate Terminated(a: seq<char>, from: nat) {
    exists k :: from <= k < |a| && a[k] == NUL
  }

  /** The characters from index `from` up to the terminator. */
  function CString(a: seq<char>, from: nat): (s: string)
    requires from <= |a|
    ensures NUL !in s && from + |s| <= |a| && a[from..from + |s|] == s
    ensures from + |s| < |a| ==> a[from + |s|] == NUL
    decreases |a| - from
  {
    if from == |a| || a[from] == NUL then [] else
      var rest := CString(a, from + 1);
      assert a[from..from + 1 + |rest|] == [a[from]] + a[from + 1..from + 1 + |rest|];
      [a[from]] + rest
  }

  /** The string and its terminator stand in the buffer. */
  ghost predicate Holds(a: seq<char>, from: nat, s: string) {
    from + |s| < |a| && NUL !in s && a[from..from + |s|] == s && a[from + |s|] == NUL
  }

  lemma {:induction false} HoldsCString(a: seq<char>, from: nat, s: string)
    requires Holds(a, from, s)
    ensures CString(a, from) == s
    decreases |s|
  {
    if s != [] {
      assert a[from + 1..from + 1 + |s[1..]|] == a[from..from + |s|][1..];
      assert a[from] == a[from..from + |s|][0];
      HoldsCString(a, from + 1, s[1..]);
    }
  }

  lemma {:induction false} TerminatedHolds(a: seq<char>, from: nat)
    requires from <= |a| && Terminated(a, from)
    ensures Holds(a, from, CString(a, from))
    decreases |a| - from
  {
    if a[from] != NUL {
      TerminatedHolds(a, from + 1);
    }
  }

  // ----- meaning

  /** `strstr`: where the pattern occurs first; `None` if it does not. */
  datatype Found = Nowhere | At(i: nat)

  function Find(s: string, search: string): (f: Found)
    ensures f.At? ==> f.i + |search| <= |s| && s[f.i..f.i + |search|] == search
  {
    if |s| < |search| then Nowhere
    else if s[..|search|] == search then At(0)
    else if s == [] then Nowhere
    else
      match Find(s[1..], search)
      case Nowhere => Nowhere
      case At(i) =>
        assert s[i + 1..i + 1 + |search|] == s[1..][i..i + |search|];
        At(i + 1)
  }

  lemma TailSlice(s: string, k: nat, n: nat)
    requires 0 < k && k + n <= |s|
    ensures s[1..][k - 1..k - 1 + n] == s[k..k + n]
  {
  }

  /** `Find` is the leftmost occurrence. */
  lemma {:induction false} FindIsFirst(s: string, search: string, k: nat)
    requires k + |search| <= |s| && s[k..k + |search|] == search
    ensures Find(s, search).At? && Find(s, search).i <= k
    decreases |s|
  {
    if k > 0 && s[..|search|] != search {
      TailSlice(s, k, |search|);
      FindIsFirst(s[1..], search, k - 1);
    }
  }

  /** Every occurrence, from the left and without overlap, replaced. */
  function ReplaceAll(s: string, search: string, replace: string): string
    requires search != []
    decreases |s|
  {
    match Find(s, search)
    case Nowhere => s
    case At(i) => s[..i] + replace + ReplaceAll(s[i + |search|..], search, replace)
  }

  function CountAll(s: string, search: string): nat
    requires search != []
    decreases |s|
  {
    match Find(s, search)
    case Nowhere => 0
    case At(i) => 1 + CountAll(s[i + |search|..], search)
  }

  lemma OneMore(n: nat, d: int)
    ensures (1 + n) * d == d + n * d
  {
  }

  /** Each replacement changes the length by the same amount. */
  lemma {:induction false} ReplacedLength(s: string, search: string, replace: string)
    requires search != []
    ensures |ReplaceAll(s, search, replace)| == |s| + CountAll(s, search) * (|replace| - |search|)
    decreases |s|
  {
    hide Find;
    match Find(s, search)
    case Nowhere =>
    case At(i) =>
      ReplacedLength(s[i + |search|..], search, replace);
      OneMore(CountAll(s[i + |search|..], search), |replace| - |search|);
  }

  lemma {:induction false} ReplacedHasNoNul(s: string, search: string, replace: string)
    requires search != [] && NUL !in s && NUL !in replace
    ensures NUL !in ReplaceAll(s, search, replace)
    decreases |s|
  {
    hide Find;
    match Find(s, search)
    case Nowhere =>
    case At(i) =>
      ReplacedHasNoNul(s[i + |search|..], search, replace);
      assert NUL !in s[..i];
  }

  // ----- the same without searching: pieces of a string and what stands between them

  function Join(pieces: seq<string>, between: string): string
    requires pieces != []
  {
    if |pieces| == 1 then pieces[0] else pieces[0] + between + Join(pieces[1..], between)
  }

  predicate Occurs(s: string, j: nat, search: string) {
    j + |search| <= |s| && s[j..j + |search|] == search
  }

  /** The pattern does not begin before the end of the piece, not even where it would run on into the next pattern. */
  ghost predicate FirstBehind(piece: string, search: string) {
    forall j: nat :: j < |piece| ==> !Occurs(piece + search, j, search)
  }

  /** The pattern stands nowhere in the piece. */
  ghost predicate Without(piece: string, search: string) {
    forall j: nat :: !Occurs(piece, j, search)
  }

  lemma OccursInFront(s: string, n: nat, j: nat, search: string)
    requires n <= |s| && Occurs(s[..n], j, search)
    ensures Occurs(s, j, search)
  {
    assert s[..n][j..j + |search|] == s[j..j + |search|];
  }

  lemma FoundThere(s: string, search: string, i: nat)
    requires search != [] && Find(s, search) == At(i)
    ensures i + |search| <= |s| && s[..i] + search == s[..i + |search|]
    ensures s == s[..i] + search + s[i + |search|..]
  {
    hide Find;
    CutAt(s, i, i + |search|);
  }

  lemma CutAt(s: string, i: nat, j: nat)
    requires i <= j <= |s|
    ensures s[..j] == s[..i] + s[i..j] && s == s[..j] + s[j..]
  {
  }

  lemma FoundFirst(s: string, search: string, i: nat)
    requires search != [] && Find(s, search) == At(i)
    ensures i + |search| <= |s| && s == s[..i] + search + s[i + |search|..] && FirstBehind(s[..i], search)
  {
    hide Find, Occurs;
    FoundThere(s, search, i);
    forall j: nat | j < i
      ensures !Occurs(s[..i] + search, j, search)
    {
      if Occurs(s[..i] + search, j, search) {
        OccursInFront(s, i + |search|, j, search);
        NotBefore(s, search, j);
      }
    }
  }

  lemma NotBefore(s: string, search: string, j: nat)
    requires Occurs(s, j, search)
    ensures Find(s, search).At? && Find(s, search).i <= j
  {
    FindIsFirst(s, search, j);
  }

  lemma NotFound(s: string, search: string)
    requires search != [] && Find(s, search) == Nowhere
    ensures Without(s, search)
  {
    hide Find, Occurs;
    forall j: nat
      ensures !Occurs(s, j, search)
    {
      if Occurs(s, j, search) {
        NotBefore(s, search, j);
      }
    }
  }

  lemma JoinFirst(piece: string, pieces: seq<string>, between: string)
    requires pieces != []
    ensures Join([piece] + pieces, between) == piece + between + Join(pieces, between)
  {
    assert ([piece] + pieces)[1..] == pieces;
  }

  /**
   Replace-all keeps the pieces and exchanges what stands between them: the string is the pieces joined by the
   pattern, cut as far to the left as possible, the result the same pieces joined by the replacement.
   */
  lemma {:induction false} ReplacedInPieces(s: string, search: string, replace: string) returns (pieces: seq<string>)
    requires search != []
    ensures |pieces| == CountAll(s, search) + 1
    ensures Join(pieces, search) == s && Join(pieces, replace) == ReplaceAll(s, search, replace)
    ensures Without(pieces[|pieces| - 1], search)
    ensures forall k :: 0 <= k < |pieces| - 1 ==> FirstBehind(pieces[k], search)
    decreases |s|
  {
    hide Find, ReplaceAll, CountAll, FirstBehind, Without, Join;
    UnfoldAll(s, search, replace);
    match Find(s, search)
    case Nowhere =>
      pieces := [s];
      NotFound(s, search);
      JoinOne(s, search);
      JoinOne(s, replace);
    case At(i) =>
      FoundFirst(s, search, i);
      var rest := ReplacedInPieces(s[i + |search|..], search, replace);
      pieces := [s[..i]] + rest;
      JoinFirst(s[..i], rest, search);
      JoinFirst(s[..i], rest, replace);
  }

  lemma JoinOne(piece: string, between: string)
    ensures Join([piece], between) == piece
  {
  }

  /** A single character is replaced wherever it stands. */
  function MapChars(s: string, c: char, replace: string): string {
    if s == [] then [] else (if s[0] == c then replace else [s[0]]) + MapChars(s[1..], c, replace)
  }

  lemma ReplaceHere(s: string, c: char, replace: string)
    requires s != [] && s[0] == c
    ensures ReplaceAll(s, [c], replace) == replace + ReplaceAll(s[1..], [c], replace)
  {
    assert s[..1] == [c];
    assert Find(s, [c]) == At(0);
    assert s[..0] + replace == replace;
  }

  lemma FindSkips(s: string, c: char)
    requires s != [] && s[0] != c
    ensures Find(s, [c]) == match Find(s[1..], [c]) case Nowhere => Nowhere case At(i) => At(i + 1)
  {
    assert s[..1][0] != [c][0];
  }

  lemma ReplaceLater(s: string, c: char, replace: string)
    requires s != [] && s[0] != c
    ensures ReplaceAll(s, [c], replace) == [s[0]] + ReplaceAll(s[1..], [c], replace)
  {
    hide ReplaceAll, CountAll, Find;
    FindSkips(s, c);
    UnfoldAll(s, [c], replace);
    UnfoldAll(s[1..], [c], replace);
    match Find(s[1..], [c])
    case Nowhere => assert s == [s[0]] + s[1..];
    case At(i) =>
      assert s[..i + 1] == [s[0]] + s[1..][..i];
      assert s[i + 1 + 1..] == s[1..][i + 1..];
  }

  lemma {:induction false} ReplaceCharIsMap(s: string, c: char, replace: string)
    ensures ReplaceAll(s, [c], replace) == MapChars(s, c, replace)
    decreases |s|
  {
    hide ReplaceAll;
    if s == [] {
      NothingToReplace(c, replace);
    } else {
      ReplaceCharIsMap(s[1..], c, replace);
      if s[0] == c {
        ReplaceHere(s, c, replace);
      } else {
        ReplaceLater(s, c, replace);
      }
    }
  }

  lemma NothingToReplace(c: char, replace: string)
    ensures ReplaceAll([], [c], replace) == []
  {
  }

  // ----- the code

  /** `while ((*dst = *src) != '\0') { dst++; src++; }`, over the `n` characters up to the terminator. */
  method MoveLeft(line: array<char>, to: nat, from: nat, ghost n: nat)
    requires to < from && 0 < n && from + n <= line.Length
    requires forall p :: from <= p < from + n ==> (line[p] == NUL <==> p == from + n - 1)
    modifies line
    ensures line[..] == Splice(old(line[..]), to, old(line[from..from + n]))
  {
    hide Splice;
    ghost var a := line[..];
    assert a[from..from + n] == line[from..from + n];
    var src, dst := from, to;
    SpliceOne(a, dst, a[src]);
    assert a[from..src + 1] == [a[src]];
    line[dst] := line[src];
    SpliceAt(a, to, a[from..src + 1], dst);
    while line[dst] != NUL
      invariant from <= src < from + n && dst == to + src - from
      invariant line[..] == Splice(a, to, a[from..src + 1])
      invariant line[dst] == a[src]
      decreases from + n - src
    {
      SpliceAt(a, to, a[from..src + 1], src + 1);
      SpliceMore(a, to, a[from..src + 1], [a[src + 1]]);
      SpliceOne(line[..], dst + 1, a[src + 1]);
      assert a[from..src + 2] == a[from..src + 1] + [a[src + 1]];
      dst := dst + 1;
      src := src + 1;
      line[dst] := line[src];
    }
    assert a[from..src + 1] == a[from..from + n];
  }

  /** `while (dst >= stop) { *dst = *src; dst--; src--; }`, from the terminator down. */
  method MoveRight(line: array<char>, to: nat, from: nat, n: nat)
    requires from < to && to + n <= line.Length
    modifies line
    ensures line[..] == Splice(old(line[..]), to, old(line[from..from + n]))
  {
    hide Splice;
    ghost var a := line[..];
    assert a[from..from + n] == line[from..from + n];
    var dst: int, src: int := to + n - 1, from + n - 1;
    SpliceNone(a, dst + 1);
    assert a[src + 1..from + n] == [];
    while dst >= to
      invariant dst - to == src - from && -1 <= dst - to < n
      invariant line[..] == Splice(a, dst + 1, a[src + 1..from + n])
      decreases dst
    {
      SpliceAt(a, dst + 1, a[src + 1..from + n], src);
      SpliceBefore(a, dst, a[src], a[src + 1..from + n]);
      assert a[src..from + n] == [a[src]] + a[src + 1..from + n];
      line[dst] := line[src];
      dst := dst - 1;
      src := src - 1;
    }
  }

  lemma WithTerminator(a: seq<char>, from: nat, t: string)
    requires Holds(a, from, t)
    ensures from + |t| + 1 <= |a| && a[from..from + |t| + 1] == t + [NUL]
  {
  }

  lemma IsHeld(a: seq<char>, from: nat, t: string)
    requires from + |t| + 1 <= |a| && a[from..from + |t| + 1] == t + [NUL] && NUL !in t
    ensures Holds(a, from, t)
  {
    assert a[from..from + |t|] == a[from..from + |t| + 1][..|t|];
    assert a[from + |t|] == a[from..from + |t| + 1][|t|];
  }

  lemma HeldHasNoNul(a: seq<char>, from: nat, t: string)
    requires Holds(a, from, t)
    ensures NUL !in t
  {
  }

  /** The suffix behind a pattern and its terminator, moved and then given its replacement in front. */
  lemma ShiftHolds(a: seq<char>, b: seq<char>, sp: nat, sLen: nat, replace: string, t: string)
    requires |a| == |b| && Holds(a, sp + sLen, t) && sp + |replace| + |t| < |a|
    requires sp + sLen + |t| < |a|
    requires b == Splice(Splice(a, sp + |replace|, a[sp + sLen..sp + sLen + |t| + 1]), sp, replace)
    ensures Holds(b, sp + |replace|, t)
    ensures b[sp..sp + |replace|] == replace && b[..sp] == a[..sp]
  {
    hide Holds, Splice;
    WithTerminator(a, sp + sLen, t);
    HeldHasNoNul(a, sp + sLen, t);
    var moved := t + [NUL];
    var to := sp + |replace|;
    var c := Splice(a, to, moved);
    SpliceKeeps(c, sp, replace, to, to + |moved|);
    SpliceReads(a, to, moved, |moved|);
    IsHeld(b, to, t);
    SpliceReads(c, sp, replace, |replace|);
    SpliceKeeps(c, sp, replace, 0, sp);
    SpliceKeeps(a, to, moved, 0, sp);
  }

  /** The tail behind the pattern moves left, right or not at all. */
  method MoveTail(line: array<char>, sp: nat, sLen: nat, rLen: nat, ghost t: string)
    requires Holds(line[..], sp + sLen, t) && sp + rLen + |t| < line.Length && sp + sLen + |t| < line.Length
    modifies line
    ensures line[..] == Splice(old(line[..]), sp + rLen, old(line[sp + sLen..sp + sLen + |t| + 1]))
  {
    hide Splice, Holds, CString;
    ghost var a := line[..];
    if sLen > rLen {
      TerminatorAlone(a, sp + sLen, t);
      MoveLeft(line, sp + rLen, sp + sLen, |t| + 1);
    } else if sLen < rLen {
      HoldsCString(a, sp + sLen, t);
      var tLen := |CString(line[..], sp + sLen)|;
      MoveRight(line, sp + rLen, sp + sLen, tLen + 1);
    } else {
      SpliceSame(a, sp + sLen, |t| + 1);
    }
    assert a[sp + sLen..sp + sLen + |t| + 1] == old(line[sp + sLen..sp + sLen + |t| + 1]);
  }

  /** From `a` to `b` the part in front of `sp` stays, then come the replacement and the string `t`. */
  ghost predicate Replaced(a: seq<char>, b: seq<char>, sp: nat, replace: string, t: string) {
    && |a| == |b| && sp + |replace| <= |b| && Holds(b, sp + |replace|, t)
    && b[sp..sp + |replace|] == replace && b[..sp] == a[..sp]
  }

  /** One replacement at `sp`, where the pattern stands. */
  method ReplaceOnce(line: array<char>, sp: nat, sLen: nat, replace: string, ghost t: string)
    requires Holds(line[..], sp + sLen, t) && sp + |replace| + |t| < line.Length
    modifies line
    ensures Replaced(old(line[..]), line[..], sp, replace, t)
  {
    hide Splice, Holds;
    ghost var a := line[..];
    HoldsFits(a, sp + sLen, t);
    MoveTail(line, sp, sLen, |replace|, t);
    assert a[sp + sLen..sp + sLen + |t| + 1] == old(line[sp + sLen..sp + sLen + |t| + 1]);
    CopyIn(line, sp, replace);
    ShiftHolds(a, line[..], sp, sLen, replace, t);
  }

  lemma HoldsFits(a: seq<char>, from: nat, s: string)
    requires Holds(a, from, s)
    ensures from + |s| < |a|
  {
  }

  lemma Grows(n: nat, d: int)
    requires d >= 0
    ensures n * d >= 0
  {
  }

  /** The first replacement fits whenever the whole result does. */
  lemma FirstFits(a: seq<char>, from: nat, s: string, i: nat, search: string, replace: string)
    requires search != [] && Holds(a, from, s) && Find(s, search) == At(i)
    requires from + |ReplaceAll(s, search, replace)| < |a|
    ensures from + i + |replace| + |s[i + |search|..]| < |a|
  {
    hide Find, ReplaceAll, CountAll, Holds;
    HoldsFits(a, from, s);
    var t := s[i + |search|..];
    UnfoldAll(s, search, replace);
    ReplacedLength(t, search, replace);
    if |replace| >= |search| {
      Grows(CountAll(t, search), |replace| - |search|);
    }
  }

  lemma TerminatorAlone(a: seq<char>, from: nat, t: string)
    requires Holds(a, from, t)
    ensures forall p :: from <= p < from + |t| + 1 ==> (a[p] == NUL <==> p == from + |t|)
  {
    forall p | from <= p < from + |t|
      ensures a[p] != NUL
    {
      assert a[from..from + |t|][p - from] == t[p - from];
    }
  }

  lemma UnfoldAll(s: string, search: string, replace: string)
    requires search != []
    ensures match Find(s, search)
            case Nowhere => ReplaceAll(s, search, replace) == s && CountAll(s, search) == 0
            case At(i) =>
              var t := s[i + |search|..];
              && ReplaceAll(s, search, replace) == s[..i] + replace + ReplaceAll(t, search, replace)
              && CountAll(s, search) == 1 + CountAll(t, search)
  {
    hide Find, ReplaceAll, CountAll;
    UnfoldReplace(s, search, replace);
    UnfoldCount(s, search);
  }

  lemma UnfoldReplace(s: string, search: string, replace: string)
    requires search != []
    ensures match Find(s, search)
            case Nowhere => ReplaceAll(s, search, replace) == s
            case At(i) =>
              ReplaceAll(s, search, replace) == s[..i] + replace + ReplaceAll(s[i + |search|..], search, replace)
  {
    hide Find, CountAll;
  }

  lemma UnfoldCount(s: string, search: string)
    requires search != []
    ensures match Find(s, search)
            case Nowhere => CountAll(s, search) == 0
            case At(i) => CountAll(s, search) == 1 + CountAll(s[i + |search|..], search)
  {
    hide Find, ReplaceAll;
  }

  /** The end of a held string is held. */
  lemma TailHolds(a: seq<char>, from: nat, s: string, k: nat)
    requires Holds(a, from, s) && k <= |s|
    ensures Holds(a, from + k, s[k..])
  {
    assert a[from + k..from + |s|] == a[from..from + |s|][k..];
  }

  lemma SamePart(a: seq<char>, b: seq<char>, n: nat, k: nat, m: nat)
    requires k <= m <= n && n <= |a| && n <= |b| && a[..n] == b[..n]
    ensures a[k..m] == b[k..m]
  {
    forall p | k <= p < m
      ensures a[p] == b[p]
    {
      assert a[p] == a[..n][p] && b[p] == b[..n][p];
    }
  }

  lemma PartOfHeld(a: seq<char>, from: nat, s: string, i: nat)
    requires Holds(a, from, s) && i <= |s|
    ensures from + i <= |a| && a[from..from + i] == s[..i] && NUL !in s[..i]
  {
    assert a[from..from + i] == a[from..from + |s|][..i];
  }

  lemma HoldsLonger(a: seq<char>, from: nat, front: string, rest: string)
    requires from + |front| <= |a| && a[from..from + |front|] == front && NUL !in front
    requires Holds(a, from + |front|, rest)
    ensures Holds(a, from, front + rest)
  {
    var e := from + |front| + |rest|;
    assert a[from..e] == a[from..from + |front|] + a[from + |front|..e];
  }

  /** What is in front, the replacement, and the rest make up the whole string. */
  lemma Glue(a: seq<char>, b: seq<char>, c: seq<char>, from: nat, s: string, i: nat, replace: string, rest: string)
    requires |a| == |b| == |c| && Holds(a, from, s) && i <= |s| && NUL !in replace
    requires from + i + |replace| <= |b| && b[..from + i] == a[..from + i]
    requires b[from + i..from + i + |replace|] == replace
    requires c[..from + i + |replace|] == b[..from + i + |replace|]
    requires Holds(c, from + i + |replace|, rest)
    ensures Holds(c, from, s[..i] + replace + rest) && c[..from] == a[..from]
  {
    hide Holds;
    var sp := from + i;
    var n := sp + |replace|;
    PartOfHeld(a, from, s, i);
    SamePart(b, a, sp, from, sp);
    SamePart(c, b, n, from, sp);
    SamePart(c, b, n, sp, n);
    HoldsLonger(c, sp, replace, rest);
    HoldsLonger(c, from, s[..i], replace + rest);
    assert s[..i] + (replace + rest) == s[..i] + replace + rest;
    SamePart(b, a, sp, 0, from);
    SamePart(c, b, n, 0, from);
  }

  /** Replacing the first occurrence, then all of what is behind it, replaces all. */
  lemma ReplacedStep(a: seq<char>, b: seq<char>, c: seq<char>, from: nat, s: string, i: nat, search: string,
                     replace: string)
    requires |a| == |b| == |c| && Holds(a, from, s) && NUL !in replace
    requires search != [] && Find(s, search) == At(i)
    requires Replaced(a, b, from + i, replace, s[i + |search|..])
    requires SameFront(b, c, from + i + |replace|)
    requires Holds(c, from + i + |replace|, ReplaceAll(s[i + |search|..], search, replace))
    ensures Holds(c, from, ReplaceAll(s, search, replace)) && SameFront(a, c, from)
    ensures CountAll(s, search) == 1 + CountAll(s[i + |search|..], search)
  {
    hide Find, ReplaceAll, CountAll, Holds;
    UnfoldAll(s, search, replace);
    Glue(a, b, c, from, s, i, replace, ReplaceAll(s[i + |search|..], search, replace));
  }

  ghost predicate SameFront(a: seq<char>, b: seq<char>, n: nat) {
    |a| == |b| && n <= |a| && a[..n] == b[..n]
  }

  lemma TailFits(a: seq<char>, from: nat, s: string, i: nat, search: string, replace: string)
    requires search != [] && Find(s, search) == At(i) && from + |ReplaceAll(s, search, replace)| < |a|
    ensures from + i + |replace| + |ReplaceAll(s[i + |search|..], search, replace)| < |a|
  {
    hide Find, ReplaceAll, CountAll;
    UnfoldAll(s, search, replace);
  }

  /** `replaceString`, on the string `s` that starts at index `from`. */
  method Replace(line: array<char>, from: nat, search: string, replace: string, ghost s: string) returns (count: nat)
    requires Holds(line[..], from, s) && search != [] && NUL !in replace
    requires from + |ReplaceAll(s, search, replace)| < line.Length
    modifies line
    ensures Holds(line[..], from, ReplaceAll(s, search, replace)) && SameFront(old(line[..]), line[..], from)
    ensures count == CountAll(s, search)
    decreases |s|
  {
    hide CString, Find, ReplaceAll, CountAll, Holds, Replaced, SameFront;
    ghost var a := line[..];
    HoldsFits(a, from, s);
    HoldsCString(a, from, s);
    var found := Find(CString(line[..], from), search);
    if found.Nowhere? {
      UnfoldAll(s, search, replace);
      FrontStays(a, from);
      return 0;
    }
    var sp := from + found.i;
    ghost var t := s[found.i + |search|..];
    TailHolds(a, from, s, found.i + |search|);
    FirstFits(a, from, s, found.i, search, replace);
    TailFits(a, from, s, found.i, search, replace);
    ReplaceOnce(line, sp, |search|, replace, t);
    ghost var b := line[..];
    ReplacedHolds(a, b, sp, replace, t);
    count := Replace(line, sp + |replace|, search, replace, t);
    count := count + 1;
    ReplacedStep(a, b, line[..], from, s, found.i, search, replace);
  }

  lemma FrontStays(a: seq<char>, n: nat)
    requires n <= |a|
    ensures SameFront(a, a, n)
  {
  }

  lemma ReplacedHolds(a: seq<char>, b: seq<char>, sp: nat, replace: string, t: string)
    requires Replaced(a, b, sp, replace, t)
    ensures Holds(b, sp + |replace|, t)
  {
  }
}
