/**
 The command lines that src/common/api.c leaves for the shell: paths between single quotes, with the
 single quotes inside them escaped by `escapeSingleQuotes`. The shell must read back exactly the paths.
 */
module ShellQuote {
  import opened ReplaceString

  // ----- the shell

  /** How a character is read: outside quotes, after a backslash (POSIX XCU 2.2.1), or between single quotes (2.2.2). */
  datatype Mode = Bare | Escaped | Quoted

  /** `NoWord` between words; a word may be begun and still empty. */
  datatype Part = NoWord | Begun(text: string)

  datatype Shell = Reading(words: seq<string>, part: Part, mode: Mode) | NotPlain

  /** The words of a command line, or a line that does more than list words. */
  datatype Parsed = Words(words: seq<string>) | Other

  const QUOTE: char := '\''
  const BACKSLASH: char := '\\'

  function Add(part: Part, text: string): Part {
    Begun(if part.NoWord? then text else part.text + text)
  }

  function Close(words: seq<string>, part: Part): seq<string> {
    if part.NoWord? then words else words + [part.text]
  }

  /** Outside quotes these stand for themselves; every other character may be an operator, an expansion or a comment. */
  predicate Plain(c: char) {
    'a' <= c <= 'z' || 'A' <= c <= 'Z' || '0' <= c <= '9' || c in "/._-,:@"
  }

  function Step(sh: Shell, c: char): Shell {
    match sh
    case NotPlain => NotPlain
    case Reading(words, part, Quoted) =>
      if c == QUOTE then Reading(words, part, Bare) else Reading(words, Add(part, [c]), Quoted)
    case Reading(words, part, Escaped) =>
      if c == '\n' then Reading(words, part, Bare) else Reading(words, Add(part, [c]), Bare)
    case Reading(words, part, Bare) =>
      if c == QUOTE then Reading(words, Add(part, ""), Quoted)
      else if c == BACKSLASH then Reading(words, part, Escaped)
      else if c == ' ' || c == '\t' then Reading(Close(words, part), NoWord, Bare)
      else if Plain(c) then Reading(words, Add(part, [c]), Bare)
      else NotPlain
  }

  function Read(sh: Shell, line: string): Shell
    decreases |line|
  {
    if line == [] then sh else Read(Step(sh, line[0]), line[1..])
  }

  /** A line may not end inside quotes or behind a backslash. */
  function Ended(sh: Shell): Parsed {
    match sh
    case Reading(words, part, Bare) => Words(Close(words, part))
    case _ => Other
  }

  function Parse(line: string): Parsed {
    Ended(Read(Reading([], NoWord, Bare), line))
  }

  lemma {:induction false} ReadOn(sh: Shell, a: string, b: string)
    ensures Read(sh, a + b) == Read(Read(sh, a), b)
    decreases |a|
  {
    if a == [] {
      assert a + b == b;
    } else {
      assert (a + b)[1..] == a[1..] + b;
      ReadOn(Step(sh, a[0]), a[1..], b);
    }
  }

  lemma ReadOne(sh: Shell, c: char)
    ensures Read(sh, [c]) == Step(sh, c)
  {
    assert [c][1..] == [];
  }

  /** One character, then the others. */
  lemma ReadNext(sh: Shell, line: string)
    requires line != []
    ensures Read(sh, line) == Read(Step(sh, line[0]), line[1..])
  {
  }

  lemma ParseFour(a: char, b: char, c: char, d: char)
    ensures Parse([a, b, c, d]) == Ended(Step(Step(Step(Step(Reading([], NoWord, Bare), a), b), c), d))
  {
    hide Step;
    var sh := Reading([], NoWord, Bare);
    ReadNext(sh, [a, b, c, d]);
    ReadNext(Step(sh, a), [b, c, d]);
    ReadNext(Step(Step(sh, a), b), [c, d]);
    ReadOne(Step(Step(Step(sh, a), b), c), d);
  }

  /** Blanks part words, and quotes keep them together. */
  lemma BlanksAndQuotes()
    ensures Parse("a  b") == Words(["a", "b"]) && Parse("' ' ") == Words([" "]) && Parse("''  ") == Words([""])
  {
    hide Parse;
    ParseFour('a', ' ', ' ', 'b');
    ParseFour('\'', ' ', '\'', ' ');
    ParseFour('\'', '\'', ' ', ' ');
    assert [] + ["a"] + ["b"] == ["a", "b"];
    assert "" + " " == " " && [] + [" "] == [" "];
    assert [] + [""] == [""];
  }

  /** A backslash keeps the next character outside quotes and is one itself between them. */
  lemma Backslashes()
    ensures Parse("a\\'b") == Words(["a'b"]) && Parse("'\\a'") == Words(["\\a"])
  {
    hide Parse;
    ParseFour('a', '\\', '\'', 'b');
    ParseFour('\'', '\\', 'a', '\'');
    assert "a" + "'" + "b" == "a'b" && [] + ["a'b"] == ["a'b"];
    assert "" + "\\" + "a" == "\\a" && [] + ["\\a"] == ["\\a"];
  }

  /** An open quote, a backslash at the end, or an operator: not a list of words. */
  lemma NotAListOfWords()
    ensures Parse("'a b") == Other && Parse("abc\\") == Other && Parse("a;b ") == Other
  {
    hide Parse;
    ParseFour('\'', 'a', ' ', 'b');
    ParseFour('a', 'b', 'c', '\\');
    ParseFour('a', ';', 'b', ' ');
  }

  // ----- quoting

  /** What `escapeSingleQuotes` puts in place of a single quote. */
  const QUOTED_QUOTE: string := [QUOTE, BACKSLASH, QUOTE, QUOTE]

  function Escape(path: string): string {
    ReplaceAll(path, [QUOTE], QUOTED_QUOTE)
  }

  lemma ReadQuotedQuote(words: seq<string>, text: string)
    ensures Read(Reading(words, Begun(text), Quoted), QUOTED_QUOTE) == Reading(words, Begun(text + [QUOTE]), Quoted)
  {
    var sh := Reading(words, Begun(text), Quoted);
    var q, b, s := [QUOTE], [BACKSLASH], Step(sh, QUOTE);
    assert QUOTED_QUOTE == q + (b + (q + q));
    ReadOn(sh, q, b + (q + q));
    ReadOn(Step(sh, QUOTE), b, q + q);
    ReadOn(Step(s, BACKSLASH), q, q);
    ReadOne(sh, QUOTE);
    ReadOne(s, BACKSLASH);
    ReadOne(Step(s, BACKSLASH), QUOTE);
    ReadOne(Step(Step(s, BACKSLASH), QUOTE), QUOTE);
    assert text + [QUOTE] + [] == text + [QUOTE];
  }

  /** Between quotes the shell undoes the escaping, character by character. */
  lemma {:induction false} ReadMapped(words: seq<string>, text: string, path: string)
    ensures Read(Reading(words, Begun(text), Quoted), MapChars(path, QUOTE, QUOTED_QUOTE))
         == Reading(words, Begun(text + path), Quoted)
    decreases |path|
  {
    hide Read;
    var sh := Reading(words, Begun(text), Quoted);
    if path == [] {
      ReadNothing(sh);
      assert text + path == text;
    } else {
      var c := path[0];
      var rest := MapChars(path[1..], QUOTE, QUOTED_QUOTE);
      var first := if c == QUOTE then QUOTED_QUOTE else [c];
      ReadOn(sh, first, rest);
      ReadQuotedQuote(words, text);
      ReadOne(sh, c);
      assert text + [c] + path[1..] == text + path;
      ReadMapped(words, text + [c], path[1..]);
    }
  }

  lemma ReadNothing(sh: Shell)
    ensures Read(sh, []) == sh
  {
  }

  /** Behind the opening quote an escaped path is read as the path. */
  lemma ReadQuoted(words: seq<string>, path: string)
    ensures Read(Reading(words, NoWord, Bare), [QUOTE] + Escape(path)) == Reading(words, Begun(path), Quoted)
  {
    hide Read, ReplaceAll, MapChars;
    var sh := Reading(words, NoWord, Bare);
    ReadOn(sh, [QUOTE], Escape(path));
    ReadOne(sh, QUOTE);
    ReplaceCharIsMap(path, QUOTE, QUOTED_QUOTE);
    ReadMapped(words, "", path);
    assert "" + path == path;
  }

  function TwoWords(a: string, b: string): string {
    [QUOTE] + Escape(a) + [QUOTE] + [' '] + [QUOTE] + Escape(b) + [QUOTE]
  }

  /** Two escaped paths between quotes are read back as exactly these two words, whatever characters they hold. */
  lemma TwoWordsAreRead(a: string, b: string)
    ensures Parse(TwoWords(a, b)) == Words([a, b])
  {
    hide Read, Escape;
    var start := Reading([], NoWord, Bare);
    var first, second := [QUOTE] + Escape(a), [QUOTE] + Escape(b);
    var between, last := [QUOTE] + [' '], [QUOTE];
    assert TwoWords(a, b) == first + (between + (second + last));
    ReadQuoted([], a);
    ReadOn(start, first, between + (second + last));
    var inA := Reading([], Begun(a), Quoted);
    ReadOn(inA, between, second + last);
    ReadOn(inA, [QUOTE], [' ']);
    ReadOne(inA, QUOTE);
    ReadOne(Reading([], Begun(a), Bare), ' ');
    assert [] + [a] == [a];
    ReadQuoted([a], b);
    ReadOn(Reading([a], NoWord, Bare), second, last);
    ReadOne(Reading([a], Begun(b), Quoted), QUOTE);
    assert [a] + [b] == [a, b];
  }

  function Launch(pak: string): string {
    [QUOTE] + Escape(pak) + LAUNCH + [QUOTE]
  }

  const LAUNCH: string := "/launch.sh"

  lemma LaunchHasNoQuote()
    ensures QUOTE !in LAUNCH
  {
  }

  lemma {:induction false} ReadVerbatim(words: seq<string>, text: string, more: string)
    requires QUOTE !in more
    ensures Read(Reading(words, Begun(text), Quoted), more) == Reading(words, Begun(text + more), Quoted)
    decreases |more|
  {
    if more == [] {
      assert text + more == text;
    } else {
      assert text + [more[0]] + more[1..] == text + more;
      ReadVerbatim(words, text + [more[0]], more[1..]);
    }
  }

  /** A pak's launch script is one word, the pak's path with the script's name behind it. */
  lemma LaunchIsRead(pak: string)
    ensures Parse(Launch(pak)) == Words([pak + "/launch.sh"])
  {
    hide Read, Escape;
    var start := Reading([], NoWord, Bare);
    var first := [QUOTE] + Escape(pak);
    assert Launch(pak) == first + (LAUNCH + [QUOTE]);
    ReadOn(start, first, LAUNCH + [QUOTE]);
    ReadQuoted([], pak);
    var inside := Reading([], Begun(pak), Quoted);
    ReadOn(inside, LAUNCH, [QUOTE]);
    LaunchHasNoQuote();
    ReadVerbatim([], pak, LAUNCH);
    ReadOne(Reading([], Begun(pak + LAUNCH), Quoted), QUOTE);
    assert [] + [pak + LAUNCH] == [pak + LAUNCH];
  }

  // ----- what the escaping is needed for

  function Total(words: seq<string>): nat {
    if words == [] then 0 else Total(words[..|words| - 1]) + |words[|words| - 1]|
  }

  /** The characters read into words, and one more for a pending backslash. */
  function Gathered(sh: Shell): nat {
    match sh
    case NotPlain => 0
    case Reading(words, part, mode) =>
      Total(words) + (if part.NoWord? then 0 else |part.text|) + (if mode == Escaped then 1 else 0)
  }

  lemma TotalClose(words: seq<string>, part: Part)
    ensures Total(Close(words, part)) == Total(words) + (if part.NoWord? then 0 else |part.text|)
  {
    if part.Begun? {
      assert (words + [part.text])[..|words|] == words;
    }
  }

  /** A quote never adds to what is gathered. */
  lemma StepGathers(sh: Shell, c: char)
    ensures Gathered(Step(sh, c)) <= Gathered(sh) + if c == QUOTE then 0 else 1
  {
    hide Total;
    if sh.Reading? {
      TotalClose(sh.words, sh.part);
    }
  }

  lemma {:induction false} ReadGathers(sh: Shell, line: string)
    ensures Gathered(Read(sh, line)) <= Gathered(sh) + |line|
    decreases |line|
  {
    hide Gathered, Step;
    if line != [] {
      StepGathers(sh, line[0]);
      ReadGathers(Step(sh, line[0]), line[1..]);
    }
  }

  lemma ParseGathers(line: string, word: string)
    requires Parse(line) == Words([word])
    ensures |word| <= Gathered(Read(Reading([], NoWord, Bare), line))
  {
    hide Read, Total;
    var sh := Read(Reading([], NoWord, Bare), line);
    TotalClose(sh.words, sh.part);
    TotalClose([], Begun(word));
    TotalNone();
    assert [] + [word] == [word];
  }

  lemma TotalNone()
    ensures Total([]) == 0
  {
  }

  lemma {:induction false} FirstQuote(path: string) returns (i: nat)
    requires QUOTE in path
    ensures i < |path| && path[i] == QUOTE && QUOTE !in path[..i]
    decreases |path|
  {
    if path[0] == QUOTE {
      i := 0;
    } else {
      var j := FirstQuote(path[1..]);
      i := j + 1;
      assert path[..i] == [path[0]] + path[1..][..j];
    }
  }

  /** Quotes alone keep a path together exactly when it holds no single quote. */
  lemma QuotesAloneAreNotEnough(path: string)
    ensures Parse([QUOTE] + path + [QUOTE]) == Words([path]) <==> QUOTE !in path
  {
    hide Read, Gathered;
    var start := Reading([], NoWord, Bare);
    var line := [QUOTE] + path + [QUOTE];
    ReadOne(start, QUOTE);
    if QUOTE !in path {
      ReadOn(start, [QUOTE] + path, [QUOTE]);
      ReadOn(start, [QUOTE], path);
      ReadVerbatim([], "", path);
      assert "" + path == path;
      ReadOne(Reading([], Begun(path), Quoted), QUOTE);
      assert [] + [path] == [path];
    } else if Parse(line) == Words([path]) {
      QuoteLost(path);
      ParseGathers(line, path);
      assert false;
    }
  }

  lemma GatheredBare(text: string)
    ensures Gathered(Reading([], Begun(text), Bare)) == |text|
  {
    TotalNone();
  }

  /** With a quote inside, less is read than is written. */
  lemma QuoteLost(path: string)
    requires QUOTE in path
    ensures Gathered(Read(Reading([], NoWord, Bare), [QUOTE] + path + [QUOTE])) < |path|
  {
    hide Read, Gathered;
    var start := Reading([], NoWord, Bare);
    var i := FirstQuote(path);
    var head, tail := path[..i], path[i + 1..];
    assert [QUOTE] + path + [QUOTE] == [QUOTE] + (head + ([QUOTE] + (tail + [QUOTE])));
    ReadOn(start, [QUOTE], head + ([QUOTE] + (tail + [QUOTE])));
    ReadOne(start, QUOTE);
    var open := Reading([], Begun(""), Quoted);
    ReadOn(open, head, [QUOTE] + (tail + [QUOTE]));
    ReadVerbatim([], "", head);
    assert "" + head == head;
    var inside, after := Reading([], Begun(head), Quoted), Reading([], Begun(head), Bare);
    ReadOn(inside, [QUOTE], tail + [QUOTE]);
    ReadOne(inside, QUOTE);
    ReadOn(after, tail, [QUOTE]);
    ReadGathers(after, tail);
    StepGathers(Read(after, tail), QUOTE);
    ReadOne(Read(after, tail), QUOTE);
    GatheredBare(head);
  }

  // ----- the code

  /** `escapeSingleQuotes`: in place. */
  method EscapeSingleQuotes(str: array<char>, ghost s: string)
    requires Holds(str[..], 0, s) && |Escape(s)| < str.Length
    modifies str
    ensures Holds(str[..], 0, Escape(s))
  {
    hide ReplaceAll, Holds;
    var count := Replace(str, 0, [QUOTE], QUOTED_QUOTE, s);
  }

  /** The size of `cmd`. */
  const COMMAND: nat := 256

  /** The end of `autoResume` and `openRom`: the command is an emulator's path and a game's. */
  method LaunchGame(emuPath: array<char>, sdPath: array<char>, ghost emu: string, ghost game: string)
    returns (cmd: string)
    requires emuPath != sdPath && Holds(emuPath[..], 0, emu) && Holds(sdPath[..], 0, game)
    requires |Escape(emu)| < emuPath.Length && |Escape(game)| < sdPath.Length
    requires |TwoWords(emu, game)| < COMMAND
    modifies emuPath, sdPath
    ensures Parse(cmd) == Words([emu, game]) && |cmd| < COMMAND
  {
    hide Escape, Holds, CString, Parse;
    EscapeSingleQuotes(sdPath, game);
    EscapeSingleQuotes(emuPath, emu);
    HoldsFits(emuPath[..], 0, Escape(emu));
    HoldsFits(sdPath[..], 0, Escape(game));
    HoldsCString(emuPath[..], 0, Escape(emu));
    HoldsCString(sdPath[..], 0, Escape(game));
    cmd := [QUOTE] + CString(emuPath[..], 0) + [QUOTE] + [' '] + [QUOTE] + CString(sdPath[..], 0) + [QUOTE];
    TwoWordsAreRead(emu, game);
  }

  /** `openPak` */
  method OpenPak(path: array<char>, ghost pak: string) returns (cmd: string)
    requires Holds(path[..], 0, pak) && |Escape(pak)| < path.Length && |Launch(pak)| < COMMAND
    modifies path
    ensures Parse(cmd) == Words([pak + "/launch.sh"]) && |cmd| < COMMAND
  {
    hide Escape, Holds, CString, Parse;
    EscapeSingleQuotes(path, pak);
    HoldsFits(path[..], 0, Escape(pak));
    HoldsCString(path[..], 0, Escape(pak));
    cmd := [QUOTE] + CString(path[..], 0) + LAUNCH + [QUOTE];
    LaunchIsRead(pak);
  }
}
