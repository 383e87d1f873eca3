/**
 What the translator of picoarch/libpicofe/in_sdl.c leaves alone, and that the two names of a mapped key are
 never down together, at no point of the stream.
 */
module ComboOthers {
  import opened ComboKeys

  // ----- events that are not of keys

  /** The events that are not of keys. */
  function Others(events: seq<Event>): (o: seq<Event>)
    ensures |o| <= |events| && forall k :: 0 <= k < |o| ==> o[k] == Other
  {
    if events == [] then []
    else
      var last := events[|events| - 1];
      Others(events[..|events| - 1]) + if last.Other? then [last] else []
  }

  lemma OthersPush(events: seq<Event>, e: Event)
    ensures Others(events + [e]) == Others(events) + if e.Other? then [e] else []
  {
    assert (events + [e])[..|events|] == events;
  }

  lemma {:induction false} EnterPushesKeys(s: State, m: seq<Mapping>)
    ensures Others(EnterCombos(s, m).pushed) == Others(s.pushed)
    decreases |m|
  {
    if m != [] {
      SwitchPushesKeys(s, m[0].inkey, m[0].outkey);
      var t := if m[0].inkey in s.keys then SwitchKey(s, m[0].inkey, m[0].outkey).(mod := ModYes) else s;
      EnterPushesKeys(t, m[1..]);
    }
  }

  lemma SwitchPushesKeys(s: State, up: nat, down: nat)
    ensures Others(SwitchKey(s, up, down).pushed) == Others(s.pushed)
  {
    OthersPush(s.pushed, Key(up, false));
    OthersPush(s.pushed + [Key(up, false)], Key(down, true));
  }

  lemma {:induction false} LeavePushesKeys(s: State, m: seq<Mapping>)
    ensures Others(LeaveCombos(s, m).pushed) == Others(s.pushed)
    decreases |m|
  {
    if m != [] {
      SwitchPushesKeys(s, m[0].outkey, m[0].inkey);
      LeavePushesKeys(if m[0].outkey in s.keys then SwitchKey(s, m[0].outkey, m[0].inkey) else s, m[1..]);
    }
  }

  lemma {:induction false} MapPushesKeys(s: State, m: seq<Mapping>, sym: nat, down: bool)
    ensures Others(MapKey(s, m, sym, down).pushed) == Others(s.pushed)
    decreases |m|
  {
    if m != [] {
      OthersPush(s.pushed, Key(m[0].outkey, down));
      var t := if m[0].inkey != sym then s
               else Push(s.(mod := ModYes, keys := Mark(s.keys, m[0].outkey, down)), Key(m[0].outkey, down));
      MapPushesKeys(t, m[1..], sym, down);
    }
  }

  /** One event: it comes out if it is not of a key, and no other such event does. */
  lemma OtherComesThrough(c: Config, s: State, e: Event)
    ensures Others(Translate(c, s, e).pushed) == Others(s.pushed) + if e.Other? then [e] else []
  {
    hide EnterCombos, LeaveCombos, MapKey, Others;
    OthersPush(s.pushed, e);
    if e.Key? {
      EnterPushesKeys(s.(mod := ModMaybe), c.map_);
      LeavePushesKeys(s.(mod := ModNo), c.map_);
      MapPushesKeys(s, c.map_, e.sym, e.down);
      OthersPush(s.pushed, Key(e.sym, true));
      OthersPush(s.pushed + [Key(e.sym, true)], Key(e.sym, false));
    }
  }

  lemma {:induction false} OthersFirst(e: Event, events: seq<Event>)
    ensures Others([e] + events) == (if e.Other? then [e] else []) + Others(events)
    decreases |events|
  {
    hide Others;
    NoOthers();
    if events == [] {
      assert [e] + events == [] + [e];
      OthersPush([], e);
    } else {
      var init, last := events[..|events| - 1], events[|events| - 1];
      assert [e] + events == [e] + init + [last] && events == init + [last];
      OthersFirst(e, init);
      OthersPush([e] + init, last);
      OthersPush(init, last);
    }
  }

  /** Over any run the events that are not of keys come through, all of them, in order, and once. */
  lemma {:induction false} OthersComeThrough(c: Config, s: State, events: seq<Event>)
    ensures Others(TranslateAll(c, s, events).pushed) == Others(s.pushed) + Others(events)
    decreases |events|
  {
    hide Translate, Others;
    if events == [] {
      NoOthers();
    } else {
      OtherComesThrough(c, s, events[0]);
      OthersComeThrough(c, Translate(c, s, events[0]), events[1..]);
      OthersFirst(events[0], events[1..]);
      assert events == [events[0]] + events[1..];
    }
  }

  lemma NoOthers()
    ensures Others([]) == []
  {
  }

  // ----- the modifier out of turn

  /** The modifier pressed while it is held, or let go while it is not, comes through and changes nothing else. */
  lemma ModifierOutOfTurn(c: Config, s: State, down: bool)
    requires down <==> s.mod != ModNo
    ensures Translate(c, s, Key(c.modKey, down)) == s.(pushed := s.pushed + [Key(c.modKey, down)])
  {
  }

  // ----- never both names at once

  /** In the stream up to any point, no mapped key is down under both its names. */
  ghost predicate NeverBoth(c: Config, events: seq<Event>) {
    forall n :: 0 <= n <= |events| ==> NotBoth(c, Held({}, events[..n]))
  }

  ghost predicate NotBoth(c: Config, keys: set<nat>) {
    forall i :: 0 <= i < |c.map_| ==> !(c.map_[i].inkey in keys && c.map_[i].outkey in keys)
  }

  lemma PushNeverBoth(c: Config, events: seq<Event>, e: Event)
    requires NeverBoth(c, events) && NotBoth(c, Held({}, events + [e]))
    ensures NeverBoth(c, events + [e])
  {
    hide NotBoth, Held;
    forall n | 0 <= n <= |events| + 1
      ensures NotBoth(c, Held({}, (events + [e])[..n]))
    {
      if n <= |events| {
        assert (events + [e])[..n] == events[..n];
      } else {
        assert (events + [e])[..n] == events + [e];
      }
    }
  }

  /** Letting a key go brings no two names together. */
  lemma ReleaseNotBoth(c: Config, keys: set<nat>, sym: nat)
    requires NotBoth(c, keys)
    ensures NotBoth(c, Mark(keys, sym, false))
  {
  }

  /** Pressing one name is safe when the other is up. */
  lemma PressNotBoth(c: Config, keys: set<nat>, sym: nat)
    requires WellFormed(c) && NotBoth(c, keys)
    requires forall i :: 0 <= i < |c.map_| ==>
               (c.map_[i].inkey == sym ==> c.map_[i].outkey !in keys) &&
               (c.map_[i].outkey == sym ==> c.map_[i].inkey !in keys)
    ensures NotBoth(c, Mark(keys, sym, true))
  {
  }

  /** The state as far as this property needs it. */
  ghost predicate Clean(c: Config, s: State) {
    NeverBoth(c, s.pushed) && Recorded(c, s) && NotBoth(c, s.keys)
  }

  lemma PushClean(c: Config, s: State, sym: nat, down: bool)
    requires Clean(c, s) && sym != c.modKey && NotBoth(c, Mark(s.keys, sym, down))
    ensures Clean(c, Push(s.(keys := Mark(s.keys, sym, down)), Key(sym, down)))
  {
    hide NeverBoth, NotBoth, Held;
    HeldPush({}, s.pushed, Key(sym, down));
    assert Held({}, s.pushed + [Key(sym, down)]) == Mark(s.keys, sym, down);
    PushNeverBoth(c, s.pushed, Key(sym, down));
    var t := Push(s.(keys := Mark(s.keys, sym, down)), Key(sym, down));
    assert t.pushed == s.pushed + [Key(sym, down)];
    assert t.keys == Mark(s.keys, sym, down);
    assert Recorded(c, t);
  }

  /** First the one name up, then the other down. */
  lemma SwitchClean(c: Config, s: State, i: nat, held: bool)
    requires WellFormed(c) && i < |c.map_| && Clean(c, s)
    ensures var m := c.map_[i];
            Clean(c, if held then SwitchKey(s, m.inkey, m.outkey) else SwitchKey(s, m.outkey, m.inkey))
  {
    hide NeverBoth, Held, Recorded;
    var m := c.map_[i];
    var up, down := if held then m.inkey else m.outkey, if held then m.outkey else m.inkey;
    ReleaseNotBoth(c, s.keys, up);
    PushClean(c, s, up, false);
    var t := Push(s.(keys := Mark(s.keys, up, false)), Key(up, false));
    PressNotBoth(c, t.keys, down);
    PushClean(c, t, down, true);
    assert SwitchKey(s, up, down) == Push(t.(keys := Mark(t.keys, down, true)), Key(down, true));
  }

  lemma {:induction false} EnterClean(c: Config, s: State, i: nat)
    requires WellFormed(c) && i <= |c.map_| && Clean(c, s)
    ensures Clean(c, EnterCombos(s, c.map_[i..]))
    decreases |c.map_| - i
  {
    hide Clean, WellFormed;
    if i < |c.map_| {
      var m := c.map_[i];
      assert c.map_[i..][0] == m && c.map_[i..][1..] == c.map_[i + 1..];
      var t := if m.inkey in s.keys then SwitchKey(s, m.inkey, m.outkey).(mod := ModYes) else s;
      SwitchClean(c, s, i, true);
      ModDoesNotMatter(c, SwitchKey(s, m.inkey, m.outkey), ModYes);
      EnterClean(c, t, i + 1);
    }
  }

  lemma {:induction false} LeaveClean(c: Config, s: State, i: nat)
    requires WellFormed(c) && i <= |c.map_| && Clean(c, s)
    ensures Clean(c, LeaveCombos(s, c.map_[i..]))
    decreases |c.map_| - i
  {
    hide Clean, WellFormed;
    if i < |c.map_| {
      var m := c.map_[i];
      assert c.map_[i..][0] == m && c.map_[i..][1..] == c.map_[i + 1..];
      SwitchClean(c, s, i, false);
      LeaveClean(c, if m.outkey in s.keys then SwitchKey(s, m.outkey, m.inkey) else s, i + 1);
    }
  }

  lemma ModDoesNotMatter(c: Config, s: State, mod: ModState)
    requires Clean(c, s)
    ensures Clean(c, s.(mod := mod))
  {
  }

  /** What shows under one name only is not down under both. */
  lemma ShownNotBoth(c: Config, keys: set<nat>, physical: set<nat>, held: bool)
    requires AllShow(c, keys, physical, held)
    ensures NotBoth(c, keys)
  {
    forall i | 0 <= i < |c.map_|
      ensures !(c.map_[i].inkey in keys && c.map_[i].outkey in keys)
    {
      assert Shows(c.map_[i], keys, c.map_[i].inkey in physical, held);
    }
  }

  /** Two more events of the modifier bring no two names together. */
  lemma TapClean(c: Config, s: State)
    requires WellFormed(c) && Clean(c, s)
    ensures Clean(c, s.(mod := ModNo, pushed := s.pushed + [Key(c.modKey, true)] + [Key(c.modKey, false)]))
  {
    hide NeverBoth, Held;
    var one := s.pushed + [Key(c.modKey, true)];
    HeldPush({}, s.pushed, Key(c.modKey, true));
    HeldPush({}, one, Key(c.modKey, false));
    assert NotBoth(c, Mark(s.keys, c.modKey, true));
    PushNeverBoth(c, s.pushed, Key(c.modKey, true));
    assert Mark(Mark(s.keys, c.modKey, true), c.modKey, false) == s.keys;
    PushNeverBoth(c, one, Key(c.modKey, false));
  }

  lemma StepClean(c: Config, s: State, physical: set<nat>, e: Event)
    requires WellFormed(c) && Inv(c, s, physical) && Possible(c, physical, e) && NeverBoth(c, s.pushed)
    ensures NeverBoth(c, Translate(c, s, e).pushed)
  {
    hide NeverBoth, NotBoth, Held, AllShow, WellFormed, EnterCombos, LeaveCombos, MapKey;
    ShownNotBoth(c, s.keys, physical, c.modKey in physical);
    StepInv(c, s, physical, e);
    var t := Translate(c, s, e);
    ShownNotBoth(c, t.keys, After(physical, e), c.modKey in After(physical, e));
    assert c.map_[0..] == c.map_;
    if e.Key? && e.sym == c.modKey {
      ModDoesNotMatter(c, s, ModMaybe);
      ModDoesNotMatter(c, s, ModNo);
      EnterClean(c, s.(mod := ModMaybe), 0);
      LeaveClean(c, s.(mod := ModNo), 0);
      TapClean(c, s);
    } else if t.pushed != s.pushed {
      OneEvent(c, s, e);
      PushNeverBoth(c, s.pushed, t.pushed[|s.pushed|]);
    }
  }

  /** A key other than the modifier, or no key at all, pushes one event at most. */
  lemma OneEvent(c: Config, s: State, e: Event)
    requires WellFormed(c) && (e.Other? || e.sym != c.modKey)
    ensures var t := Translate(c, s, e);
            t.pushed == s.pushed || (|t.pushed| == |s.pushed| + 1 && t.pushed == s.pushed + [t.pushed[|s.pushed|]])
  {
    if e.Key? && s.mod != ModNo {
      if IsIn(c, e.sym) {
        var i :| 0 <= i < |c.map_| && c.map_[i].inkey == e.sym;
        MappedTranslate(c, s, e, i);
      } else {
        PlainTranslate(c, s, e);
      }
    }
  }

  lemma {:induction false} RunNeverBoth(c: Config, s: State, physical: set<nat>, events: seq<Event>)
    requires WellFormed(c) && Inv(c, s, physical) && PossibleRun(c, physical, events) && NeverBoth(c, s.pushed)
    ensures NeverBoth(c, TranslateAll(c, s, events).pushed)
    decreases |events|
  {
    hide NeverBoth, Inv, WellFormed, Possible, Translate;
    if events != [] {
      StepInv(c, s, physical, events[0]);
      StepClean(c, s, physical, events[0]);
      RunNeverBoth(c, Translate(c, s, events[0]), After(physical, events[0]), events[1..]);
    }
  }

  /** At no point of what is pushed in any possible run is a mapped key down under both its names. */
  lemma NeverBothNames(c: Config, events: seq<Event>)
    requires WellFormed(c) && PossibleRun(c, {}, events)
    ensures NeverBoth(c, TranslateAll(c, State(ModNo, {}, []), events).pushed)
  {
    NothingPressed(c);
    RunNeverBoth(c, State(ModNo, {}, []), {}, events);
  }
}
