/**
 The modifier-key translator of picoarch/libpicofe/in_sdl.c, on sets of keys: what one event does to
 the state and which events it pushes.
 */
module ComboKeys {

  datatype ModState = ModNo | ModMaybe | ModYes

  /** A key going down or up; every other kind of event is `Other`. */
  datatype Event = Key(sym: nat, down: bool) | Other

  datatype Mapping = Mapping(inkey: nat, outkey: nat)

  /** The platform's table. */
  datatype Config = Config(modKey: nat, map_: seq<Mapping>)

  /** The automaton, the keys it believes down, and the events pushed so far. */
  datatype State = State(mod: ModState, keys: set<nat>, pushed: seq<Event>)

  function Mark(keys: set<nat>, sym: nat, down: bool): set<nat> {
    if down then keys + {sym} else keys - {sym}
  }

  function Push(s: State, e: Event): State {
    s.(pushed := s.pushed + [e])
  }

  /** `switch_key`: one key is let go, another pressed in its place. */
  function SwitchKey(s: State, up: nat, down: nat): State {
    s.(keys := Mark(Mark(s.keys, up, false), down, true),
       pushed := s.pushed + [Key(up, false)] + [Key(down, true)])
  }

  /** The modifier goes down: mapped keys that are down become combos. */
  function EnterCombos(s: State, m: seq<Mapping>): State
    decreases |m|
  {
    if m == [] then s
    else if m[0].inkey in s.keys
    then EnterCombos(SwitchKey(s, m[0].inkey, m[0].outkey).(mod := ModYes), m[1..])
    else EnterCombos(s, m[1..])
  }

  /** The modifier goes up: combos that are down become plain keys again. */
  function LeaveCombos(s: State, m: seq<Mapping>): State
    decreases |m|
  {
    if m == [] then s
    else if m[0].outkey in s.keys then LeaveCombos(SwitchKey(s, m[0].outkey, m[0].inkey), m[1..])
    else LeaveCombos(s, m[1..])
  }

  /** Another key while the modifier is held: only mapped keys get through, under their other name. */
  function MapKey(s: State, m: seq<Mapping>, sym: nat, down: bool): State
    decreases |m|
  {
    if m == [] then s
    else if m[0].inkey == sym
    then
      var s' := s.(mod := ModYes, keys := Mark(s.keys, m[0].outkey, down));
      MapKey(Push(s', Key(m[0].outkey, down)), m[1..], sym, down)
    else MapKey(s, m[1..], sym, down)
  }

  /** `translate_combo_event` */
  function Translate(c: Config, s: State, e: Event): State {
    if e.Other? then Push(s, e)
    else if s.mod == ModNo && e.sym != c.modKey then Push(s.(keys := Mark(s.keys, e.sym, e.down)), e)
    else if e.sym == c.modKey then
      match s.mod
      case ModNo => if e.down then EnterCombos(s.(mod := ModMaybe), c.map_) else Push(s, e)
      case ModMaybe =>
        if e.down then Push(s, e)
        else s.(mod := ModNo, pushed := s.pushed + [Key(e.sym, true)] + [Key(e.sym, false)])
      case ModYes => if e.down then Push(s, e) else LeaveCombos(s.(mod := ModNo), c.map_)
    else MapKey(s, c.map_, e.sym, e.down)
  }

  function TranslateAll(c: Config, s: State, events: seq<Event>): State
    decreases |events|
  {
    if events == [] then s else TranslateAll(c, Translate(c, s, events[0]), events[1..])
  }

  // ----- what a stream of events means

  /** The keys that are down once the events have been handled, starting from `keys`. */
  function Held(keys: set<nat>, events: seq<Event>): set<nat>
    decreases |events|
  {
    if events == [] then keys
    else
      var last := events[|events| - 1];
      var before := Held(keys, events[..|events| - 1]);
      if last.Key? then Mark(before, last.sym, last.down) else before
  }

  lemma HeldPush(keys: set<nat>, events: seq<Event>, e: Event)
    ensures Held(keys, events + [e]) == if e.Key? then Mark(Held(keys, events), e.sym, e.down) else Held(keys, events)
  {
    assert (events + [e])[..|events|] == events;
  }

  ghost predicate IsIn(c: Config, k: nat) {
    exists i :: 0 <= i < |c.map_| && c.map_[i].inkey == k
  }

  ghost predicate IsOut(c: Config, k: nat) {
    exists i :: 0 <= i < |c.map_| && c.map_[i].outkey == k
  }

  /** No key has two roles. */
  ghost predicate WellFormed(c: Config) {
    && (forall i, j :: 0 <= i < j < |c.map_| ==>
          c.map_[i].inkey != c.map_[j].inkey && c.map_[i].outkey != c.map_[j].outkey)
    && (forall i, j :: 0 <= i < |c.map_| && 0 <= j < |c.map_| ==> c.map_[i].inkey != c.map_[j].outkey)
    && (forall i :: 0 <= i < |c.map_| ==> c.map_[i].inkey != c.modKey && c.map_[i].outkey != c.modKey)
  }

  /** A key goes down only when up and up only when down, and no output key is a key of its own. */
  ghost predicate Possible(c: Config, physical: set<nat>, e: Event) {
    e.Key? ==> (e.down <==> e.sym !in physical) && !IsOut(c, e.sym)
  }

  ghost predicate PossibleRun(c: Config, physical: set<nat>, events: seq<Event>)
    decreases |events|
  {
    events == [] ||
    (Possible(c, physical, events[0]) && PossibleRun(c, After(physical, events[0]), events[1..]))
  }

  function After(physical: set<nat>, e: Event): set<nat> {
    if e.Key? then Mark(physical, e.sym, e.down) else physical
  }

  function AfterAll(physical: set<nat>, events: seq<Event>): set<nat>
    decreases |events|
  {
    if events == [] then physical else AfterAll(After(physical, events[0]), events[1..])
  }

  // ----- the promise

  /** Entry `m` shows as its output key while the modifier is held, as its input key otherwise. */
  ghost predicate Shows(m: Mapping, keys: set<nat>, down: bool, held: bool) {
    && (m.inkey in keys <==> down && !held)
    && (m.outkey in keys <==> down && held)
  }

  ghost predicate AllShow(c: Config, keys: set<nat>, physical: set<nat>, held: bool) {
    forall i :: 0 <= i < |c.map_| ==> Shows(c.map_[i], keys, c.map_[i].inkey in physical, held)
  }

  /** What is pushed and what is remembered agree; the modifier itself is never left down. */
  ghost predicate Recorded(c: Config, s: State) {
    Held({}, s.pushed) == s.keys && c.modKey !in s.keys
  }

  ghost predicate NoneDown(c: Config, physical: set<nat>, n: nat)
    requires n <= |c.map_|
  {
    forall j :: 0 <= j < n ==> c.map_[j].inkey !in physical
  }

  ghost predicate Inv(c: Config, s: State, physical: set<nat>) {
    && (s.mod == ModNo <==> c.modKey !in physical)
    && AllShow(c, s.keys, physical, c.modKey in physical)
    && (s.mod == ModMaybe ==> NoneDown(c, physical, |c.map_|))
    && Recorded(c, s)
  }

  /** Keys without a role in the table stay as they are. */
  ghost predicate SameOthers(c: Config, a: set<nat>, b: set<nat>) {
    forall k :: !IsIn(c, k) && !IsOut(c, k) ==> (k in a <==> k in b)
  }

  lemma SwitchRecorded(c: Config, s: State, up: nat, down: nat)
    requires Recorded(c, s) && down != c.modKey
    ensures Recorded(c, SwitchKey(s, up, down))
  {
    HeldPush({}, s.pushed, Key(up, false));
    HeldPush({}, s.pushed + [Key(up, false)], Key(down, true));
  }

  /** Entries below `i` already show as `held`, the others still as not `held`. */
  ghost predicate HalfWay(c: Config, keys: set<nat>, physical: set<nat>, i: nat, held: bool)
    requires i <= |c.map_|
  {
    && (forall j :: 0 <= j < i ==> Shows(c.map_[j], keys, c.map_[j].inkey in physical, held))
    && (forall j :: i <= j < |c.map_| ==> Shows(c.map_[j], keys, c.map_[j].inkey in physical, !held))
  }

  /** Switching entry `i` over moves the boundary and leaves the other entries alone. */
  lemma SwitchEntry(c: Config, s: State, physical: set<nat>, i: nat, held: bool)
    requires WellFormed(c) && i < |c.map_| && HalfWay(c, s.keys, physical, i, held) && Recorded(c, s)
    ensures var m := c.map_[i];
            var up, down := if held then m.inkey else m.outkey, if held then m.outkey else m.inkey;
            var t := if up in s.keys then SwitchKey(s, up, down) else s;
            HalfWay(c, t.keys, physical, i + 1, held) && Recorded(c, t) && SameOthers(c, s.keys, t.keys) &&
            (up in s.keys <==> m.inkey in physical)
  {
    var m := c.map_[i];
    var up, down := if held then m.inkey else m.outkey, if held then m.outkey else m.inkey;
    SwitchRecorded(c, s, up, down);
    assert IsIn(c, m.inkey) && IsOut(c, m.outkey);
  }

  lemma {:induction false} EnterShows(c: Config, s: State, physical: set<nat>, i: nat)
    requires WellFormed(c) && i <= |c.map_| && HalfWay(c, s.keys, physical, i, true) && Recorded(c, s)
    requires s.mod != ModNo && (s.mod == ModMaybe ==> NoneDown(c, physical, i))
    ensures var r := EnterCombos(s, c.map_[i..]);
            && AllShow(c, r.keys, physical, true) && Recorded(c, r) && SameOthers(c, s.keys, r.keys)
            && r.mod != ModNo && (r.mod == ModMaybe ==> NoneDown(c, physical, |c.map_|))
    decreases |c.map_| - i
  {
    if i < |c.map_| {
      SwitchEntry(c, s, physical, i, true);
      var m := c.map_[i];
      var t := if m.inkey in s.keys then SwitchKey(s, m.inkey, m.outkey).(mod := ModYes) else s;
      EnterShows(c, t, physical, i + 1);
      assert c.map_[i..][1..] == c.map_[i + 1..];
    }
  }

  lemma {:induction false} LeaveShows(c: Config, s: State, physical: set<nat>, i: nat)
    requires WellFormed(c) && i <= |c.map_| && HalfWay(c, s.keys, physical, i, false) && Recorded(c, s)
    ensures var r := LeaveCombos(s, c.map_[i..]);
            AllShow(c, r.keys, physical, false) && Recorded(c, r) && SameOthers(c, s.keys, r.keys) && r.mod == s.mod
    decreases |c.map_| - i
  {
    if i < |c.map_| {
      SwitchEntry(c, s, physical, i, false);
      var m := c.map_[i];
      var t := if m.outkey in s.keys then SwitchKey(s, m.outkey, m.inkey) else s;
      LeaveShows(c, t, physical, i + 1);
      assert c.map_[i..][1..] == c.map_[i + 1..];
    }
  }

  /** A key that no entry names is swallowed. */
  lemma {:induction false} MapKeyNone(s: State, m: seq<Mapping>, sym: nat, down: bool)
    requires forall j :: 0 <= j < |m| ==> m[j].inkey != sym
    ensures MapKey(s, m, sym, down) == s
    decreases |m|
  {
    if m != [] {
      MapKeyNone(s, m[1..], sym, down);
    }
  }

  /** A key of entry `i` is pushed once, under its output name. */
  lemma {:induction false} MapKeyOne(s: State, m: seq<Mapping>, i: nat, down: bool)
    requires i < |m| && forall j :: 0 <= j < |m| && j != i ==> m[j].inkey != m[i].inkey
    ensures MapKey(s, m, m[i].inkey, down) ==
            Push(s.(mod := ModYes, keys := Mark(s.keys, m[i].outkey, down)), Key(m[i].outkey, down))
    decreases |m|
  {
    if i == 0 {
      var s' := Push(s.(mod := ModYes, keys := Mark(s.keys, m[0].outkey, down)), Key(m[0].outkey, down));
      MapKeyNone(s', m[1..], m[0].inkey, down);
    } else {
      assert m[1..][i - 1] == m[i];
      MapKeyOne(s, m[1..], i - 1, down);
    }
  }

  lemma ModifierStep(c: Config, s: State, physical: set<nat>, e: Event)
    requires WellFormed(c) && Inv(c, s, physical) && e.Key? && e.sym == c.modKey && Possible(c, physical, e)
    ensures Inv(c, Translate(c, s, e), After(physical, e))
    ensures SameOthers(c, s.keys, Translate(c, s, e).keys)
  {
    hide EnterCombos, LeaveCombos, SameOthers, AllShow, WellFormed, NoneDown, HalfWay, Held;
    assert c.map_[0..] == c.map_;
    var p := After(physical, e);
    ShowsFrame(c, s.keys, physical, p);
    SameOthersRefl(c, s.keys);
    match s.mod
    case ModNo =>
      EnterShows(c, s.(mod := ModMaybe), p, 0);
    case ModMaybe =>
      HeldPush({}, s.pushed, Key(e.sym, true));
      HeldPush({}, s.pushed + [Key(e.sym, true)], Key(e.sym, false));
      NothingHeld(c, s.keys, p);
    case ModYes =>
      LeaveShows(c, s.(mod := ModNo), p, 0);
  }

  lemma SameOthersRefl(c: Config, keys: set<nat>)
    ensures SameOthers(c, keys, keys)
  {
  }

  /** Pressing or letting go the modifier does not touch the mapped keys. */
  lemma ShowsFrame(c: Config, keys: set<nat>, physical: set<nat>, p: set<nat>)
    requires WellFormed(c) && forall k :: k != c.modKey ==> (k in physical <==> k in p)
    ensures forall held :: AllShow(c, keys, physical, held) <==> AllShow(c, keys, p, held)
    ensures NoneDown(c, physical, |c.map_|) <==> NoneDown(c, p, |c.map_|)
    ensures forall held :: AllShow(c, keys, p, !held) ==> HalfWay(c, keys, p, 0, held)
  {
  }

  lemma NothingHeld(c: Config, keys: set<nat>, p: set<nat>)
    requires NoneDown(c, p, |c.map_|) && AllShow(c, keys, p, true)
    ensures AllShow(c, keys, p, false)
  {
  }

  /** A mapped key goes up or down under the name it has at the time. */
  lemma MappedKeys(c: Config, keys: set<nat>, physical: set<nat>, i: nat, down: bool, held: bool)
    requires WellFormed(c) && i < |c.map_| && AllShow(c, keys, physical, held)
    ensures var m := c.map_[i];
            var key := if held then m.outkey else m.inkey;
            && key != c.modKey && m.inkey != c.modKey
            && AllShow(c, Mark(keys, key, down), Mark(physical, m.inkey, down), held)
            && SameOthers(c, keys, Mark(keys, key, down))
  {
    var m := c.map_[i];
    var key := if held then m.outkey else m.inkey;
    var keys', physical' := Mark(keys, key, down), Mark(physical, m.inkey, down);
    forall j | 0 <= j < |c.map_|
      ensures Shows(c.map_[j], keys', c.map_[j].inkey in physical', held)
    {
      assert Shows(c.map_[j], keys, c.map_[j].inkey in physical, held);
    }
    forall k | !IsIn(c, k) && !IsOut(c, k)
      ensures k in keys <==> k in keys'
    {
      assert m.inkey != k && m.outkey != k;
    }
  }

  /** What the translator does with a mapped key. */
  lemma MappedTranslate(c: Config, s: State, e: Event, i: nat)
    requires WellFormed(c) && i < |c.map_| && e.Key? && e.sym == c.map_[i].inkey
    ensures var key := if s.mod == ModNo then e.sym else c.map_[i].outkey;
            Translate(c, s, e) ==
            var mod := if s.mod == ModNo then ModNo else ModYes;
            Push(s.(mod := mod, keys := Mark(s.keys, key, e.down)), Key(key, e.down))
  {
    if s.mod != ModNo {
      MapKeyOne(s, c.map_, i, e.down);
    }
  }

  /** A key with a place in the table. */
  lemma MappedStep(c: Config, s: State, physical: set<nat>, e: Event, i: nat)
    requires WellFormed(c) && Inv(c, s, physical) && e.Key? && Possible(c, physical, e)
    requires i < |c.map_| && e.sym == c.map_[i].inkey
    ensures Inv(c, Translate(c, s, e), After(physical, e))
    ensures SameOthers(c, s.keys, Translate(c, s, e).keys)
  {
    hide WellFormed, AllShow, SameOthers, Translate, Possible, Held;
    var key := if s.mod == ModNo then e.sym else c.map_[i].outkey;
    MappedTranslate(c, s, e, i);
    MappedKeys(c, s.keys, physical, i, e.down, c.modKey in physical);
    HeldPush({}, s.pushed, Key(key, e.down));
  }

  /** A key without a role goes up or down, or only its hardware does. */
  lemma PlainKeys(c: Config, keys: set<nat>, physical: set<nat>, sym: nat, down: bool, held: bool)
    requires !IsIn(c, sym) && !IsOut(c, sym) && AllShow(c, keys, physical, held)
    ensures AllShow(c, Mark(keys, sym, down), Mark(physical, sym, down), held)
    ensures AllShow(c, keys, Mark(physical, sym, down), held)
    ensures NoneDown(c, physical, |c.map_|) ==> NoneDown(c, Mark(physical, sym, down), |c.map_|)
  {
    forall j | 0 <= j < |c.map_|
      ensures c.map_[j].inkey != sym && c.map_[j].outkey != sym
      ensures Shows(c.map_[j], Mark(keys, sym, down), c.map_[j].inkey in Mark(physical, sym, down), held)
      ensures Shows(c.map_[j], keys, c.map_[j].inkey in Mark(physical, sym, down), held)
    {
      assert c.map_[j].inkey == sym ==> IsIn(c, sym);
      assert c.map_[j].outkey == sym ==> IsOut(c, sym);
      assert Shows(c.map_[j], keys, c.map_[j].inkey in physical, held);
    }
  }

  lemma PlainTranslate(c: Config, s: State, e: Event)
    requires e.Key? && !IsIn(c, e.sym) && e.sym != c.modKey
    ensures Translate(c, s, e) == if s.mod == ModNo then Push(s.(keys := Mark(s.keys, e.sym, e.down)), e) else s
  {
    if s.mod != ModNo {
      assert forall j :: 0 <= j < |c.map_| ==> c.map_[j].inkey != e.sym;
      MapKeyNone(s, c.map_, e.sym, e.down);
    }
  }

  /** A key without a role. */
  lemma PlainStep(c: Config, s: State, physical: set<nat>, e: Event)
    requires WellFormed(c) && Inv(c, s, physical) && e.Key? && Possible(c, physical, e)
    requires !IsIn(c, e.sym) && e.sym != c.modKey
    ensures Inv(c, Translate(c, s, e), After(physical, e))
    ensures Translate(c, s, e) == if c.modKey in physical then s else Push(s.(keys := Mark(s.keys, e.sym, e.down)), e)
  {
    hide WellFormed, AllShow, Translate, NoneDown, Held, IsIn, IsOut;
    PlainTranslate(c, s, e);
    PlainKeys(c, s.keys, physical, e.sym, e.down, c.modKey in physical);
    HeldPush({}, s.pushed, e);
  }

  lemma StepInv(c: Config, s: State, physical: set<nat>, e: Event)
    requires WellFormed(c) && Inv(c, s, physical) && Possible(c, physical, e)
    ensures Inv(c, Translate(c, s, e), After(physical, e))
  {
    if e.Other? {
      HeldPush({}, s.pushed, e);
    } else if e.sym == c.modKey {
      ModifierStep(c, s, physical, e);
    } else if IsIn(c, e.sym) {
      var i :| 0 <= i < |c.map_| && c.map_[i].inkey == e.sym;
      MappedStep(c, s, physical, e, i);
    } else {
      PlainStep(c, s, physical, e);
    }
  }

  lemma {:induction false} RunInv(c: Config, s: State, physical: set<nat>, events: seq<Event>)
    requires WellFormed(c) && Inv(c, s, physical) && PossibleRun(c, physical, events)
    ensures Inv(c, TranslateAll(c, s, events), AfterAll(physical, events))
    decreases |events|
  {
    hide Inv;
    if events != [] {
      StepInv(c, s, physical, events[0]);
      RunInv(c, Translate(c, s, events[0]), After(physical, events[0]), events[1..]);
    }
  }

  /**
   After any possible run of events, from nothing pressed: among the keys that the pushed events
   leave down, an output key is there exactly when its input key and the modifier are physically
   down, an input key exactly when it is down and the modifier is not, and the modifier never is.
   */
  lemma CombosAreFaithful(c: Config, events: seq<Event>)
    requires WellFormed(c) && PossibleRun(c, {}, events)
    ensures var physical := AfterAll({}, events);
            var seen := Held({}, TranslateAll(c, State(ModNo, {}, []), events).pushed);
            && c.modKey !in seen
            && forall i :: 0 <= i < |c.map_| ==>
                 && (c.map_[i].outkey in seen <==> c.map_[i].inkey in physical && c.modKey in physical)
                 && (c.map_[i].inkey in seen <==> c.map_[i].inkey in physical && c.modKey !in physical)
  {
    RunInv(c, State(ModNo, {}, []), {}, events);
  }

  // ----- keys the table does not know

  /**
   An event of a key without a role is swallowed while the modifier is held, so it brings the key
   in step with the hardware exactly when the modifier is up or they were out of step before.
   */
  lemma UnmappedKeyInStep(c: Config, s: State, physical: set<nat>, e: Event)
    requires WellFormed(c) && Inv(c, s, physical) && e.Key? && Possible(c, physical, e)
    requires !IsIn(c, e.sym) && e.sym != c.modKey
    ensures var seen, seen' := Held({}, s.pushed), Held({}, Translate(c, s, e).pushed);
            (e.sym in seen' <==> e.sym in After(physical, e)) <==>
            (c.modKey !in physical || (e.sym in seen <==> e.sym !in physical))
  {
    PlainStep(c, s, physical, e);
  }

  /** How many events of key `k` have been swallowed since the last one that came through; `n` so far. */
  function Missed(c: Config, k: nat, physical: set<nat>, events: seq<Event>, n: nat): nat
    decreases |events|
  {
    if events == [] then n
    else Missed(c, k, After(physical, events[0]), events[1..], MissedNext(c, k, physical, events[0], n))
  }

  function MissedNext(c: Config, k: nat, physical: set<nat>, e: Event, n: nat): nat {
    if !e.Key? || e.sym != k then n else if c.modKey in physical then n + 1 else 0
  }

  /** The key is as the hardware has it exactly when an even number of its events are missing. */
  ghost predicate Even(k: nat, keys: set<nat>, physical: set<nat>, n: nat) {
    (k in keys <==> k in physical) <==> n % 2 == 0
  }

  lemma StepKeepsEven(c: Config, s: State, physical: set<nat>, e: Event, k: nat, n: nat)
    requires WellFormed(c) && Inv(c, s, physical) && Possible(c, physical, e) && Even(k, s.keys, physical, n)
    requires !IsIn(c, k) && !IsOut(c, k) && k != c.modKey
    ensures Even(k, Translate(c, s, e).keys, After(physical, e), MissedNext(c, k, physical, e, n))
  {
    hide Translate, Inv;
    if e.Other? {
      OtherStep(c, s, e);
    } else if e.sym == c.modKey {
      ModifierStep(c, s, physical, e);
    } else if IsIn(c, e.sym) {
      var i :| 0 <= i < |c.map_| && c.map_[i].inkey == e.sym;
      MappedStep(c, s, physical, e, i);
    } else {
      PlainStep(c, s, physical, e);
    }
  }

  lemma OtherStep(c: Config, s: State, e: Event)
    requires e.Other?
    ensures Translate(c, s, e).keys == s.keys
  {
  }

  lemma {:induction false} RunKeepsEven(c: Config, s: State, physical: set<nat>, events: seq<Event>, k: nat, n: nat)
    requires WellFormed(c) && Inv(c, s, physical) && PossibleRun(c, physical, events) && Even(k, s.keys, physical, n)
    requires !IsIn(c, k) && !IsOut(c, k) && k != c.modKey
    ensures Even(k, TranslateAll(c, s, events).keys, AfterAll(physical, events), Missed(c, k, physical, events, n))
    decreases |events|
  {
    hide Translate, Inv, Possible, Even, WellFormed, IsIn, IsOut;
    if events != [] {
      var e := events[0];
      StepInv(c, s, physical, e);
      StepKeepsEven(c, s, physical, e, k, n);
      RunKeepsEven(c, Translate(c, s, e), After(physical, e), events[1..], k, MissedNext(c, k, physical, e, n));
    }
  }

  /**
   After any possible run of events, a key without a role is as the hardware has it exactly when an
   even number of its events came since its last event with the modifier up.
   */
  lemma UnmappedKeyAfterRun(c: Config, events: seq<Event>, k: nat)
    requires WellFormed(c) && PossibleRun(c, {}, events) && !IsIn(c, k) && !IsOut(c, k) && k != c.modKey
    ensures var seen := Held({}, TranslateAll(c, State(ModNo, {}, []), events).pushed);
            (k in seen <==> k in AfterAll({}, events)) <==> Missed(c, k, {}, events, 0) % 2 == 0
  {
    hide TranslateAll, WellFormed;
    var s := State(ModNo, {}, []);
    NothingPressed(c);
    RunInv(c, s, {}, events);
    RunKeepsEven(c, s, {}, events, k, 0);
  }

  lemma NothingPressed(c: Config)
    ensures Inv(c, State(ModNo, {}, []), {})
  {
  }

  /** The shortest run that leaves a key stuck: press it, press the modifier, let both go. */
  lemma UnmappedKeySticks(c: Config, k: nat)
    requires WellFormed(c) && !IsIn(c, k) && !IsOut(c, k) && k != c.modKey
    ensures var events := [Key(k, true), Key(c.modKey, true), Key(k, false), Key(c.modKey, false)];
            && PossibleRun(c, {}, events) && AfterAll({}, events) == {}
            && k in Held({}, TranslateAll(c, State(ModNo, {}, []), events).pushed)
  {
    var e0, e1, e2, e3 := Key(k, true), Key(c.modKey, true), Key(k, false), Key(c.modKey, false);
    var p0: set<nat> := {};
    var s0 := State(ModNo, {}, []);
    var p1, s1 := After(p0, e0), Translate(c, s0, e0);
    var p2, s2 := After(p1, e1), Translate(c, s1, e1);
    var p3, s3 := After(p2, e2), Translate(c, s2, e2);
    var p4, s4 := After(p3, e3), Translate(c, s3, e3);
    assert !IsOut(c, c.modKey);
    StepInv(c, s0, p0, e0);
    ModifierStep(c, s1, p1, e1);
    PlainStep(c, s2, p2, e2);
    ModifierStep(c, s3, p3, e3);
    FourEvents(c, s0, p0, e0, e1, e2, e3);
    assert p4 == {};
  }

  lemma FirstEvent(c: Config, s: State, p: set<nat>, e: Event, rest: seq<Event>)
    ensures TranslateAll(c, s, [e] + rest) == TranslateAll(c, Translate(c, s, e), rest)
    ensures AfterAll(p, [e] + rest) == AfterAll(After(p, e), rest)
    ensures PossibleRun(c, p, [e] + rest) <==> Possible(c, p, e) && PossibleRun(c, After(p, e), rest)
  {
    hide Translate, Possible, After;
    assert ([e] + rest)[1..] == rest;
  }

  lemma FourEvents(c: Config, s: State, p: set<nat>, e0: Event, e1: Event, e2: Event, e3: Event)
    ensures var t := Translate(c, Translate(c, Translate(c, Translate(c, s, e0), e1), e2), e3);
            TranslateAll(c, s, [e0, e1, e2, e3]) == t
    ensures AfterAll(p, [e0, e1, e2, e3]) == After(After(After(After(p, e0), e1), e2), e3)
    ensures PossibleRun(c, p, [e0, e1, e2, e3]) <==>
            && Possible(c, p, e0) && Possible(c, After(p, e0), e1) && Possible(c, After(After(p, e0), e1), e2)
            && Possible(c, After(After(After(p, e0), e1), e2), e3)
  {
    hide Translate, Possible, After;
    var s1, p1 := Translate(c, s, e0), After(p, e0);
    var s2, p2 := Translate(c, s1, e1), After(p1, e1);
    var s3, p3 := Translate(c, s2, e2), After(p2, e2);
    assert [e0, e1, e2, e3] == [e0] + ([e1] + ([e2] + ([e3] + [])));
    FirstEvent(c, s, p, e0, [e1] + ([e2] + ([e3] + [])));
    FirstEvent(c, s1, p1, e1, [e2] + ([e3] + []));
    FirstEvent(c, s2, p2, e2, [e3] + []);
    FirstEvent(c, s3, p3, e3, []);
  }
}
