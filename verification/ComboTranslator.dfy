/**
 The translator of picoarch/libpicofe/in_sdl.c as the code has it: key bits packed in machine words,
 loops over the platform's table, and an event record that is rewritten and pushed.
 */
module ComboTranslator {
  import opened Bits
  import opened Arith
  import opened ComboKeys
  import opened ComboHistory

  /** Words of 64 bits, as many as the key codes of SDL 1.2 need. */
  const WORD_BITS: nat := 64
  const WORDS: nat := 6
  const KEYS: nat := 384

  // ----- one word, as a number

  /** `sym & (KEYBITS_WORD_BITS - 1)` */
  function Position(sym: nat): (k: nat)
    ensures k < WORD_BITS
  {
    sym % WORD_BITS
  }

  /** `!!(word & (1 << k))` */
  function GetBit(word: nat, k: nat): bool {
    if k == 0 then word % 2 == 1 else GetBit(word / 2, k - 1)
  }

  /** `word | (1 << k)` or `word & ~(1 << k)` */
  function PutBit(word: nat, k: nat, down: bool): nat {
    if k == 0 then word / 2 * 2 + (if down then 1 else 0) else PutBit(word / 2, k - 1, down) * 2 + word % 2
  }

  lemma {:induction false} GetPut(word: nat, j: nat, k: nat, down: bool)
    ensures GetBit(PutBit(word, j, down), k) == if j == k then down else GetBit(word, k)
    decreases j
  {
    var w := PutBit(word, j, down);
    if j == 0 {
      assert w / 2 == word / 2;
    } else {
      assert w / 2 == PutBit(word / 2, j - 1, down) && w % 2 == word % 2;
      if k > 0 {
        GetPut(word / 2, j - 1, k - 1, down);
      }
    }
  }

  lemma PutBitHalf(word: nat, k: nat, down: bool)
    ensures PutBit(word, k, down) <= if k == 0 then 2 * (word / 2) + 1 else 2 * PutBit(word / 2, k - 1, down) + 1
  {
  }

  lemma UpOne(n: nat)
    ensures Up(1, 0) == 1 && (n > 0 ==> Up(1, n) == 2 * Up(1, n - 1))
  {
  }

  /** A word stays a word. */
  lemma {:induction false} PutFits(word: nat, k: nat, down: bool, n: nat)
    requires k < n && word < Up(1, n)
    ensures PutBit(word, k, down) < Up(1, n)
    decreases k
  {
    hide PutBit, Up;
    UpOne(n);
    PutBitHalf(word, k, down);
    if k > 0 {
      PutFits(word / 2, k - 1, down, n - 1);
    }
  }

  lemma {:induction false} GetZero(k: nat)
    ensures !GetBit(0, k)
  {
    if k > 0 {
      GetZero(k - 1);
    }
  }

  // ----- all words

  ghost predicate IsDown(words: seq<nat>, sym: nat)
    requires |words| == WORDS && sym < KEYS
  {
    GetBit(words[sym / 64], Position(sym))
  }

  /** The set of keys that the packed words stand for. */
  ghost function KeySet(words: seq<nat>): (s: set<nat>)
    requires |words| == WORDS
    ensures forall k: nat :: k in s <==> k < KEYS && IsDown(words, k)
  {
    set k: nat | k < KEYS && IsDown(words, k)
  }

  lemma PutMarks(words: seq<nat>, sym: nat, down: bool)
    requires |words| == WORDS && sym < KEYS
    ensures KeySet(words[sym / 64 := PutBit(words[sym / 64], Position(sym), down)]) == Mark(KeySet(words), sym, down)
  {
    hide GetBit, PutBit;
    var words' := words[sym / 64 := PutBit(words[sym / 64], Position(sym), down)];
    forall k: nat | k < KEYS
      ensures IsDown(words', k) <==> if k == sym then down else IsDown(words, k)
    {
      GetPut(words[sym / 64], Position(sym), Position(k), down);
      SamePosition(sym, k);
    }
  }

  lemma SamePosition(j: nat, k: nat)
    ensures j / 64 == k / 64 && Position(j) == Position(k) ==> j == k
  {
  }

  lemma NothingDown(words: seq<nat>)
    requires |words| == WORDS && forall i :: 0 <= i < WORDS ==> words[i] == 0
    ensures KeySet(words) == {}
  {
    forall k: nat | k < KEYS
      ensures !IsDown(words, k)
    {
      GetZero(Position(k));
    }
  }

  // ----- the translator

  /** As many events as one batch takes from the queue. */
  const BATCH: nat := 10

  class Translator {
    const config: Config
    /** The keys of the driver's state. */
    const kept: array<nat>
    /** A batch's own copy of them. */
    var keystate: array<nat>
    var modState: ModState
    var pushed: seq<Event>

    ghost predicate Valid()
      reads this
    {
      && keystate.Length == WORDS && kept.Length == WORDS && keystate != kept
      && 0 < config.modKey < KEYS && BoundedMap(config.map_, KEYS)
    }

    ghost function Abstract(): State
      reads this, keystate
      requires Valid()
    {
      State(modState, KeySet(keystate[..]), pushed)
    }

    /** The same between batches. */
    ghost function Kept(): State
      reads this, kept
      requires Valid()
    {
      State(modState, KeySet(kept[..]), pushed)
    }

    constructor (c: Config)
      requires 0 < c.modKey < KEYS && BoundedMap(c.map_, KEYS)
      ensures Valid() && Abstract() == Kept() == State(ModNo, {}, []) && config == c
      ensures fresh(keystate) && fresh(kept)
    {
      config := c;
      kept := new nat[WORDS](_ => 0);
      keystate := new nat[WORDS](_ => 0);
      modState := ModNo;
      pushed := [];
      new;
      NothingDown(keystate[..]);
      NothingDown(kept[..]);
    }

    method UpdateKeystate(words: array<nat>, sym: nat, isDown: bool)
      requires words.Length == WORDS && sym < KEYS
      modifies words
      ensures KeySet(words[..]) == Mark(old(KeySet(words[..])), sym, isDown)
    {
      hide KeySet, GetBit, PutBit;
      PutMarks(words[..], sym, isDown);
      var word := sym / 64;
      words[word] := PutBit(words[word], Position(sym), isDown);
      assert words[..] == old(words[..])[word := words[word]];
    }

    method GetKeystate(sym: nat) returns (down: bool)
      requires Valid() && sym < KEYS
      ensures down <==> sym in Abstract().keys
    {
      down := GetBit(keystate[sym / 64], Position(sym));
    }

    /** `SDL_PushEvent` */
    method PushEvent(e: Event)
      modifies this`pushed
      ensures pushed == old(pushed) + [e]
    {
      pushed := pushed + [e];
    }

    method SwitchKeys(upkey: nat, downkey: nat)
      requires Valid() && upkey < KEYS && downkey < KEYS
      modifies this`pushed, keystate
      ensures Abstract() == SwitchKey(old(Abstract()), upkey, downkey)
    {
      hide KeySet;
      UpdateKeystate(keystate, upkey, false);
      PushEvent(Key(upkey, false));
      UpdateKeystate(keystate, downkey, true);
      PushEvent(Key(downkey, true));
    }

    method EnterLoop()
      requires Valid()
      modifies this`pushed, this`modState, keystate
      ensures Abstract() == EnterCombos(old(Abstract()), config.map_)
    {
      hide KeySet, SwitchKey;
      for i := 0 to |config.map_|
        invariant EnterCombos(Abstract(), config.map_[i..]) == EnterCombos(old(Abstract()), config.map_)
      {
        var m := config.map_[i];
        assert config.map_[i..][1..] == config.map_[i + 1..];
        var down := GetKeystate(m.inkey);
        if down {
          modState := ModYes;
          SwitchModFrame(Abstract(), m.inkey, m.outkey);
          SwitchKeys(m.inkey, m.outkey);
        }
      }
    }

    method LeaveLoop()
      requires Valid()
      modifies this`pushed, keystate
      ensures Abstract() == LeaveCombos(old(Abstract()), config.map_)
    {
      hide KeySet, SwitchKey;
      for i := 0 to |config.map_|
        invariant LeaveCombos(Abstract(), config.map_[i..]) == LeaveCombos(old(Abstract()), config.map_)
      {
        var m := config.map_[i];
        assert config.map_[i..][1..] == config.map_[i + 1..];
        var down := GetKeystate(m.outkey);
        if down {
          SwitchKeys(m.outkey, m.inkey);
        }
      }
    }

    method MapLoop(sym: nat, isDown: bool)
      requires Valid()
      modifies this`pushed, this`modState, keystate
      ensures Abstract() == MapKey(old(Abstract()), config.map_, sym, isDown)
    {
      hide KeySet;
      for i := 0 to |config.map_|
        invariant MapKey(Abstract(), config.map_[i..], sym, isDown) == MapKey(old(Abstract()), config.map_, sym, isDown)
      {
        var m := config.map_[i];
        assert config.map_[i..][1..] == config.map_[i + 1..];
        if m.inkey == sym {
          modState := ModYes;
          UpdateKeystate(keystate, m.outkey, isDown);
          PushEvent(Key(m.outkey, isDown));
        }
      }
    }

    /** `translate_combo_event` */
    method TranslateEvent(e: Event)
      requires Valid() && (e.Key? ==> e.sym < KEYS)
      modifies this`pushed, this`modState, keystate
      ensures Abstract() == Translate(config, old(Abstract()), e)
    {
      hide KeySet, EnterCombos, LeaveCombos, MapKey;
      if e.Other? {
        PushEvent(e);
        return;
      }
      if modState == ModNo && e.sym != config.modKey {
        UpdateKeystate(keystate, e.sym, e.down);
        PushEvent(e);
        return;
      }
      if e.sym == config.modKey {
        match modState
        case ModNo =>
          if e.down {
            modState := ModMaybe;
            EnterLoop();
          } else {
            PushEvent(e);
          }
        case ModMaybe =>
          if e.down {
            PushEvent(e);
          } else {
            modState := ModNo;
            PushEvent(Key(e.sym, true));
            PushEvent(Key(e.sym, false));
          }
        case ModYes =>
          if e.down {
            PushEvent(e);
          } else {
            modState := ModNo;
            LeaveLoop();
          }
      } else {
        MapLoop(e.sym, e.down);
      }
    }

    /** The loop of `translate_combo_events` over the events of a batch. */
    method TranslateEvents(events: seq<Event>)
      requires Valid() && Bounded(events, KEYS)
      modifies this`pushed, this`modState, keystate
      ensures Abstract() == TranslateAll(config, old(Abstract()), events)
    {
      hide KeySet, Translate;
      for i := 0 to |events|
        invariant TranslateAll(config, Abstract(), events[i..]) == TranslateAll(config, old(Abstract()), events)
      {
        assert events[i..][1..] == events[i + 1..];
        TranslateEvent(events[i]);
      }
    }

    /** `translate_combo_events`: the batch works on a copy of the keys, which is dropped afterwards. */
    method TranslateBatch(events: seq<Event>)
      requires Valid() && Bounded(events, KEYS)
      modifies this`pushed, this`modState, this`keystate
      ensures Valid() && kept[..] == old(kept[..])
      ensures var t := TranslateAll(config, old(Kept()), events); modState == t.mod && pushed == t.pushed
    {
      hide KeySet, TranslateAll;
      keystate := new nat[WORDS];
      forall i | 0 <= i < WORDS {
        keystate[i] := kept[i];
      }
      assert keystate[..] == kept[..];
      TranslateEvents(events);
    }

    /** The loop of `collect_events` over the queue, with `handle_event` inside. */
    method HandleEvents(events: seq<Event>)
      requires Valid() && Bounded(events, KEYS)
      modifies kept
      ensures KeySet(kept[..]) == Held(old(KeySet(kept[..])), events)
    {
      hide KeySet;
      for i := 0 to |events|
        invariant KeySet(kept[..]) == Held(old(KeySet(kept[..])), events[..i])
      {
        assert events[..i + 1] == events[..i] + [events[i]];
        HeldPush(old(KeySet(kept[..])), events[..i], events[i]);
        if events[i].Key? {
          UpdateKeystate(kept, events[i].sym, events[i].down);
        }
      }
      assert events[..|events|] == events;
    }

    /**
     `collect_events` on a queue: at most ten events are translated; what they push goes behind the
     others, and then the whole queue is handled.
     */
    method CollectEvents(queue: seq<Event>, ghost physical: set<nat>)
      requires Valid() && Bounded(queue, KEYS)
      modifies this`pushed, this`modState, this`keystate, kept
      ensures Valid() && old(pushed) <= pushed
      ensures var t := TranslateAll(config, old(Kept()), queue[..Min(10, |queue|)]);
              modState == t.mod && pushed == t.pushed
      ensures KeySet(kept[..]) ==
              Held(old(KeySet(kept[..])), queue[Min(10, |queue|)..] + pushed[|old(pushed)|..])
      ensures |queue| <= 10 && WellFormed(config) && Inv(config, old(Kept()), physical) &&
              PossibleRun(config, physical, queue) ==>
                Kept() == TranslateAll(config, old(Kept()), queue) && Inv(config, Kept(), AfterAll(physical, queue))
    {
      hide KeySet, TranslateAll, Held, PossibleRun, WellFormed, Inv, AfterAll;
      var n := Min(BATCH, |queue|);
      ghost var s := Kept();
      TranslateAllGrows(config, s, queue[..n], KEYS);
      var before := |pushed|;
      TranslateBatch(queue[..n]);
      HandleEvents(queue[n..] + pushed[before..]);
      if |queue| <= BATCH && WellFormed(config) && Inv(config, s, physical) && PossibleRun(config, physical, queue) {
        assert queue[..n] == queue && queue[n..] + pushed[before..] == pushed[before..];
        HandledSetIsKept(config, s, physical, queue);
        RunInv(config, s, physical, queue);
      }
    }
  }

  /** The order of the two assignments does not matter. */
  lemma SwitchModFrame(s: State, up: nat, down: nat)
    ensures forall mod :: SwitchKey(s, up, down).(mod := mod) == SwitchKey(s.(mod := mod), up, down)
  {
  }

  // ----- the table of the Miyoo Mini

  /** Key codes of SDL 1.2, as picoarch/source/plat_miyoomini.c uses them. */
  const MIYOO_MINI := Config(27, [
    Mapping(273, 49), Mapping(274, 50), Mapping(276, 51), Mapping(275, 52), Mapping(306, 53),
    Mapping(32, 54), Mapping(304, 55), Mapping(308, 56), Mapping(13, 57), Mapping(305, 48),
    Mapping(101, 113), Mapping(116, 119), Mapping(9, 111), Mapping(8, 112)])

  /** A number of its own for every key code in the table. */
  function Rank(k: nat): nat {
    if k == 273 then 0
    else if k == 274 then 1
    else if k == 276 then 2
    else if k == 275 then 3
    else if k == 306 then 4
    else if k == 32 then 5
    else if k == 304 then 6
    else if k == 308 then 7
    else if k == 13 then 8
    else if k == 305 then 9
    else if k == 101 then 10
    else if k == 116 then 11
    else if k == 9 then 12
    else if k == 8 then 13
    else if k == 49 then 14
    else if k == 50 then 15
    else if k == 51 then 16
    else if k == 52 then 17
    else if k == 53 then 18
    else if k == 54 then 19
    else if k == 55 then 20
    else if k == 56 then 21
    else if k == 57 then 22
    else if k == 48 then 23
    else if k == 113 then 24
    else if k == 119 then 25
    else if k == 111 then 26
    else if k == 112 then 27
    else 28
  }

  lemma InkeyRanks(i: nat)
    requires i < |MIYOO_MINI.map_|
    ensures Rank(MIYOO_MINI.map_[i].inkey) == i
  {
  }

  lemma OutkeyRanks(i: nat)
    requires i < |MIYOO_MINI.map_|
    ensures Rank(MIYOO_MINI.map_[i].outkey) == 14 + i
  {
  }

  lemma MiyooMiniRanks(i: nat)
    requires i < |MIYOO_MINI.map_|
    ensures Rank(MIYOO_MINI.map_[i].inkey) == i && Rank(MIYOO_MINI.map_[i].outkey) == 14 + i
    ensures Rank(MIYOO_MINI.modKey) == 28
  {
    InkeyRanks(i);
    OutkeyRanks(i);
  }

  lemma MiyooMiniIsWellFormed()
    ensures WellFormed(MIYOO_MINI)
  {
    hide Rank;
    var m := MIYOO_MINI.map_;
    forall i, j | 0 <= i < |m| && 0 <= j < |m|
      ensures i < j ==> m[i].inkey != m[j].inkey && m[i].outkey != m[j].outkey
      ensures m[i].inkey != m[j].outkey
      ensures m[i].inkey != MIYOO_MINI.modKey && m[i].outkey != MIYOO_MINI.modKey
    {
      MiyooMiniRanks(i);
      MiyooMiniRanks(j);
    }
  }
}
