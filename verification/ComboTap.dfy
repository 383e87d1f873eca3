/** When the modifier of picoarch/libpicofe/in_sdl.c still counts as a key of its own: tapped without a combo. */
module ComboTap {
  import opened ComboKeys

  /** `t` has pushed more key events than `s`, none of them of the modifier. */
  ghost predicate Extends(c: Config, s: State, t: State) {
    s.pushed <= t.pushed &&
    forall k :: |s.pushed| <= k < |t.pushed| ==> t.pushed[k].Key? && t.pushed[k].sym != c.modKey
  }

  lemma ExtendsOn(c: Config, s: State, t: State, u: State)
    requires Extends(c, s, t) && Extends(c, t, u)
    ensures Extends(c, s, u)
  {
    forall k | |s.pushed| <= k < |u.pushed|
      ensures u.pushed[k].Key? && u.pushed[k].sym != c.modKey
    {
      if k < |t.pushed| {
        assert u.pushed[k] == t.pushed[k];
      }
    }
  }

  /** An entry from `i` on whose input key is in the set. */
  ghost predicate AnyDown(c: Config, keys: set<nat>, i: nat) {
    exists j :: i <= j < |c.map_| && c.map_[j].inkey in keys
  }

  lemma {:induction false} EnterDecides(c: Config, s: State, i: nat)
    requires WellFormed(c) && i <= |c.map_| && s.mod != ModNo
    ensures var r := EnterCombos(s, c.map_[i..]);
            && Extends(c, s, r)
            && (if s.mod == ModYes || AnyDown(c, s.keys, i) then r.mod == ModYes else r == s)
    decreases |c.map_| - i
  {
    if i < |c.map_| {
      var m := c.map_[i];
      assert c.map_[i..][0] == m && c.map_[i..][1..] == c.map_[i + 1..];
      var t := if m.inkey in s.keys then SwitchKey(s, m.inkey, m.outkey).(mod := ModYes) else s;
      assert Extends(c, s, t);
      EnterDecides(c, t, i + 1);
      ExtendsOn(c, s, t, EnterCombos(s, c.map_[i..]));
    }
  }

  lemma {:induction false} LeaveIsSilent(c: Config, s: State, i: nat)
    requires WellFormed(c) && i <= |c.map_|
    ensures var r := LeaveCombos(s, c.map_[i..]); Extends(c, s, r) && r.mod == s.mod
    decreases |c.map_| - i
  {
    if i < |c.map_| {
      var m := c.map_[i];
      assert c.map_[i..][0] == m && c.map_[i..][1..] == c.map_[i + 1..];
      var t := if m.outkey in s.keys then SwitchKey(s, m.outkey, m.inkey) else s;
      assert Extends(c, s, t);
      LeaveIsSilent(c, t, i + 1);
      ExtendsOn(c, s, t, LeaveCombos(s, c.map_[i..]));
    }
  }

  lemma {:induction false} MapDecides(c: Config, s: State, i: nat, sym: nat, down: bool)
    requires WellFormed(c) && i <= |c.map_| && s.mod != ModNo
    ensures var r := MapKey(s, c.map_[i..], sym, down);
            && Extends(c, s, r)
            && (if s.mod == ModYes || exists j :: i <= j < |c.map_| && c.map_[j].inkey == sym
                then r.mod == ModYes else r == s)
    decreases |c.map_| - i
  {
    if i < |c.map_| {
      var m := c.map_[i];
      assert c.map_[i..][0] == m && c.map_[i..][1..] == c.map_[i + 1..];
      var t := if m.inkey == sym
               then Push(s.(mod := ModYes, keys := Mark(s.keys, m.outkey, down)), Key(m.outkey, down)) else s;
      assert Extends(c, s, t);
      MapDecides(c, t, i + 1, sym, down);
      ExtendsOn(c, s, t, MapKey(s, c.map_[i..], sym, down));
    }
  }

  /** One of the events is of a mapped key. */
  ghost predicate AnyMapped(c: Config, events: seq<Event>) {
    exists k :: 0 <= k < |events| && events[k].Key? && IsIn(c, events[k].sym)
  }

  /** Key events of other keys than the modifier. */
  ghost predicate OtherKeys(c: Config, events: seq<Event>) {
    forall k :: 0 <= k < |events| ==> events[k].Key? && events[k].sym != c.modKey
  }

  lemma {:induction false} HoldDecides(c: Config, s: State, events: seq<Event>)
    requires WellFormed(c) && s.mod != ModNo && OtherKeys(c, events)
    ensures var r := TranslateAll(c, s, events);
            && Extends(c, s, r)
            && (if s.mod == ModYes || AnyMapped(c, events) then r.mod == ModYes else r == s)
    decreases |events|
  {
    if events != [] {
      var e := events[0];
      var t := Translate(c, s, e);
      assert c.map_[0..] == c.map_;
      MapDecides(c, s, 0, e.sym, e.down);
      HoldDecides(c, t, events[1..]);
      ExtendsOn(c, s, t, TranslateAll(c, s, events));
      FirstOrRest(c, events);
    }
  }

  lemma FirstOrRest(c: Config, events: seq<Event>)
    requires events != []
    ensures AnyMapped(c, events) <==> (events[0].Key? && IsIn(c, events[0].sym)) || AnyMapped(c, events[1..])
  {
    if AnyMapped(c, events[1..]) {
      var k :| 0 <= k < |events[1..]| && events[1..][k].Key? && IsIn(c, events[1..][k].sym);
      assert events[k + 1].Key? && IsIn(c, events[k + 1].sym);
    }
    if AnyMapped(c, events) {
      var k :| 0 <= k < |events| && events[k].Key? && IsIn(c, events[k].sym);
      if k > 0 {
        assert events[1..][k - 1].Key? && IsIn(c, events[1..][k - 1].sym);
      }
    }
  }

  /**
   The modifier pressed, any other keys moved, the modifier let go.  If no mapped key was down or moved
   meanwhile, the press and the release come through, late and together, and nothing else does;
   if one was, neither comes through.
   */
  lemma TapComesThrough(c: Config, s: State, physical: set<nat>, events: seq<Event>)
    requires WellFormed(c) && Inv(c, s, physical) && s.mod == ModNo && OtherKeys(c, events)
    ensures var t := Translate(c, TranslateAll(c, Translate(c, s, Key(c.modKey, true)), events), Key(c.modKey, false));
            && t.mod == ModNo
            && (if AnyDown(c, physical, 0) || AnyMapped(c, events) then Extends(c, s, t)
                else t == s.(pushed := s.pushed + [Key(c.modKey, true)] + [Key(c.modKey, false)]))
  {
    hide AnyMapped, Extends;
    assert c.map_[0..] == c.map_;
    var s1 := s.(mod := ModMaybe);
    EnterDecides(c, s1, 0);
    assert AnyDown(c, s.keys, 0) <==> AnyDown(c, physical, 0);
    var s2 := Translate(c, s, Key(c.modKey, true));
    HoldDecides(c, s2, events);
    var s3 := TranslateAll(c, s2, events);
    LeaveIsSilent(c, s3.(mod := ModNo), 0);
    if s3.mod == ModYes {
      var t := Translate(c, s3, Key(c.modKey, false));
      SamePushed(c, s, s1, s2);
      ExtendsOn(c, s, s2, s3);
      SamePushed(c, s3, s3.(mod := ModNo), t);
      ExtendsOn(c, s, s3, t);
    }
  }

  lemma SamePushed(c: Config, s: State, t: State, u: State)
    requires s.pushed == t.pushed && Extends(c, t, u)
    ensures Extends(c, s, u)
  {
  }
}
