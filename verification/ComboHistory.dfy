/** What the translator of picoarch/libpicofe/in_sdl.c pushes: events of bounded keys, behind those pushed before. */
module ComboHistory {
  import opened ComboKeys

  /** All keys of the events are below `n`. */
  predicate Bounded(events: seq<Event>, n: nat) {
    forall k :: 0 <= k < |events| && events[k].Key? ==> events[k].sym < n
  }

  predicate BoundedMap(m: seq<Mapping>, n: nat) {
    forall i :: 0 <= i < |m| ==> m[i].inkey < n && m[i].outkey < n
  }

  /** `t` has pushed what `s` has, and bounded events behind it. */
  ghost predicate Grows(s: State, t: State, n: nat) {
    s.pushed <= t.pushed && Bounded(t.pushed[|s.pushed|..], n)
  }

  lemma GrowsOn(s: State, t: State, u: State, n: nat)
    requires Grows(s, t, n) && Grows(t, u, n)
    ensures Grows(s, u, n)
  {
    assert u.pushed[|s.pushed|..] == t.pushed[|s.pushed|..] + u.pushed[|t.pushed|..];
  }

  lemma {:induction false} EnterGrows(s: State, m: seq<Mapping>, n: nat)
    requires BoundedMap(m, n)
    ensures Grows(s, EnterCombos(s, m), n)
    decreases |m|
  {
    if m != [] {
      var t := if m[0].inkey in s.keys then SwitchKey(s, m[0].inkey, m[0].outkey).(mod := ModYes) else s;
      EnterGrows(t, m[1..], n);
      GrowsOn(s, t, EnterCombos(s, m), n);
    }
  }

  lemma {:induction false} LeaveGrows(s: State, m: seq<Mapping>, n: nat)
    requires BoundedMap(m, n)
    ensures Grows(s, LeaveCombos(s, m), n)
    decreases |m|
  {
    if m != [] {
      var t := if m[0].outkey in s.keys then SwitchKey(s, m[0].outkey, m[0].inkey) else s;
      LeaveGrows(t, m[1..], n);
      GrowsOn(s, t, LeaveCombos(s, m), n);
    }
  }

  lemma {:induction false} MapGrows(s: State, m: seq<Mapping>, sym: nat, down: bool, n: nat)
    requires BoundedMap(m, n)
    ensures Grows(s, MapKey(s, m, sym, down), n)
    decreases |m|
  {
    if m != [] {
      var t := if m[0].inkey != sym then s
               else Push(s.(mod := ModYes, keys := Mark(s.keys, m[0].outkey, down)), Key(m[0].outkey, down));
      MapGrows(t, m[1..], sym, down, n);
      GrowsOn(s, t, MapKey(s, m, sym, down), n);
    }
  }

  lemma TranslateGrows(c: Config, s: State, e: Event, n: nat)
    requires BoundedMap(c.map_, n) && Bounded([e], n)
    ensures Grows(s, Translate(c, s, e), n)
  {
    hide EnterCombos, LeaveCombos, MapKey;
    assert [e][0] == e;
    if e.Key? {
      EnterGrows(s.(mod := ModMaybe), c.map_, n);
      LeaveGrows(s.(mod := ModNo), c.map_, n);
      MapGrows(s, c.map_, e.sym, e.down, n);
    }
  }

  lemma {:induction false} TranslateAllGrows(c: Config, s: State, events: seq<Event>, n: nat)
    requires BoundedMap(c.map_, n) && Bounded(events, n)
    ensures Grows(s, TranslateAll(c, s, events), n)
    decreases |events|
  {
    hide Translate;
    if events != [] {
      TranslateGrows(c, s, events[0], n);
      TranslateAllGrows(c, Translate(c, s, events[0]), events[1..], n);
      GrowsOn(s, Translate(c, s, events[0]), TranslateAll(c, s, events), n);
    }
  }

  /** Handling events after others. */
  lemma {:induction false} HeldConcat(keys: set<nat>, a: seq<Event>, b: seq<Event>)
    ensures Held(keys, a + b) == Held(Held(keys, a), b)
    decreases |b|
  {
    if b == [] {
      assert a + b == a;
    } else {
      var init, last := b[..|b| - 1], b[|b| - 1];
      assert a + b == a + init + [last] && b == init + [last];
      HeldConcat(keys, a, init);
      HeldPush(keys, a + init, last);
      HeldPush(Held(keys, a), init, last);
    }
  }

  /**
   A set of keys that handles the pushed events arrives where the translator's own set arrives, so
   the translator may start each batch from that set.
   */
  lemma HandledSetIsKept(c: Config, s: State, physical: set<nat>, events: seq<Event>)
    requires WellFormed(c) && Inv(c, s, physical) && PossibleRun(c, physical, events)
    ensures var t := TranslateAll(c, s, events);
            s.pushed <= t.pushed && Held(s.keys, t.pushed[|s.pushed|..]) == t.keys
  {
    hide TranslateAll, WellFormed, PossibleRun, Held, AllShow;
    var t := TranslateAll(c, s, events);
    RunInv(c, s, physical, events);
    var n := LargestKey(c, events);
    TranslateAllGrows(c, s, events, n);
    HeldConcat({}, s.pushed, t.pushed[|s.pushed|..]);
    assert s.pushed + t.pushed[|s.pushed|..] == t.pushed;
  }

  /** Some bound for all keys. */
  lemma LargestKey(c: Config, events: seq<Event>) returns (n: nat)
    ensures BoundedMap(c.map_, n) && Bounded(events, n)
  {
    n := 0;
    for i := 0 to |c.map_|
      invariant BoundedMap(c.map_[..i], n)
    {
      n := n + c.map_[i].inkey + c.map_[i].outkey + 1;
      assert c.map_[..i + 1] == c.map_[..i] + [c.map_[i]];
    }
    assert c.map_[..|c.map_|] == c.map_;
    for i := 0 to |events|
      invariant BoundedMap(c.map_, n) && Bounded(events[..i], n)
    {
      n := n + (if events[i].Key? then events[i].sym else 0) + 1;
      assert events[..i + 1] == events[..i] + [events[i]];
    }
    assert events[..|events|] == events;
  }
}
