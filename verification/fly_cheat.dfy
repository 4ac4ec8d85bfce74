/** The fly cheat of Library/Cheat/Cheats/FlyCheat.cs: the key-binding snapshot taken at
    construction, the zeroing and restoring of the five movement bindings, the IsFlying
    flag, and the guards of OnUpdate. The game's SettingsManager is an object handed in;
    saving the settings and notifying the input manager are recorded as one event. */
module Fly {
  import opened Wrappers
  import opened GroundedPatch

  /** InputAction values the cheat touches. */
  const Forward: int := 0
  const Backward: int := 1
  const LeftStrafe: int := 2
  const RightStrafe: int := 3
  const Jump: int := 6

  /** The actions DisableUserKeys and EnableUserKeys go through, in their order. */
  const MovementActions: seq<int> := [Forward, Backward, Jump, LeftStrafe, RightStrafe]

  /** A game key binding; only its key code is modelled. */
  class Keybind {
    var key: int

    /** new Keybind(other): a copy of another binding. */
    constructor Copy(other: Keybind)
      ensures key == other.key
    {
      key := other.key;
    }
  }

  /** No two actions share a binding object. */
  ghost predicate Distinct(keybinds: map<int, Keybind>) {
    forall a, b | a in keybinds && b in keybinds && a != b :: keybinds[a] != keybinds[b]
  }

  /** The key codes of a binding map. */
  function KeyCodes(keybinds: map<int, Keybind>): (codes: map<int, int>)
    reads keybinds.Values
    ensures codes.Keys == keybinds.Keys
  {
    map a | a in keybinds :: keybinds[a].key
  }

  /** Clone: a new map with the same actions and a new binding object per action holding
      the same key code. */
  method Clone(source: map<int, Keybind>) returns (copy: map<int, Keybind>)
    ensures copy.Keys == source.Keys
    ensures forall a | a in copy :: fresh(copy[a])
    ensures Distinct(copy)
    ensures KeyCodes(copy) == KeyCodes(source)
  {
    copy := map[];
    var todo := source.Keys;
    while todo != {}
      invariant todo <= source.Keys
      invariant copy.Keys == source.Keys - todo
      invariant forall a | a in copy :: fresh(copy[a])
      invariant Copied(copy, source) && Distinct(copy)
      decreases |todo|
    {
      SomeAction(todo);
      var a :| a in todo;
      copy := CloneOne(copy, source, a);
      todo := todo - {a};
    }
    SameCodes(copy, source);
  }

  /** A set of actions that is not empty has a member. */
  lemma SomeAction(actions: set<int>)
    requires actions != {}
    ensures exists a :: a in actions
  {
    assert (forall a :: a !in actions) ==> actions == {};
  }

  /** One step of Clone: a new binding for action a. */
  method CloneOne(copy: map<int, Keybind>, source: map<int, Keybind>, a: int) returns (r: map<int, Keybind>)
    requires a in source && a !in copy
    requires Copied(copy, source) && Distinct(copy)
    ensures r.Keys == copy.Keys + {a}
    ensures Copied(r, source) && Distinct(r)
    ensures forall b | b in r :: (b in copy && r[b] == copy[b]) || fresh(r[b])
  {
    var binding := new Keybind.Copy(source[a]);
    r := Extend(copy, a, binding);
  }

  /** Every binding of copy holds the code of source's binding for the same action. */
  ghost predicate Copied(copy: map<int, Keybind>, source: map<int, Keybind>)
    reads copy.Values, source.Values
  {
    forall a | a in copy :: a in source && copy[a].key == source[a].key
  }

  /** Adding a binding no entry holds keeps the map's bindings distinct. */
  function Extend(keybinds: map<int, Keybind>, a: int, binding: Keybind): (r: map<int, Keybind>)
    requires Distinct(keybinds) && a !in keybinds
    requires forall b | b in keybinds :: keybinds[b] != binding
    ensures Distinct(r) && r == keybinds[a := binding]
  {
    keybinds[a := binding]
  }

  lemma SameCodes(copy: map<int, Keybind>, source: map<int, Keybind>)
    requires copy.Keys == source.Keys
    requires forall a | a in copy :: copy[a].key == source[a].key
    ensures KeyCodes(copy) == KeyCodes(source)
  {
    assert forall a | a in copy :: KeyCodes(copy)[a] == KeyCodes(source)[a];
  }

  /** The key codes after a run of writes, and whether the run completed: a write to an
      action the settings lack throws KeyNotFoundException and ends the run. */
  datatype KeyUpdate = KeyUpdate(codes: map<int, int>, complete: bool)

  /** DisableUserKeys on key codes: each action is set to 0 in turn. */
  function DisableKeys(codes: map<int, int>, actions: seq<int>): (r: KeyUpdate)
    ensures r.codes.Keys == codes.Keys
    decreases |actions|
  {
    if actions == [] then KeyUpdate(codes, true)
    else if actions[0] !in codes then KeyUpdate(codes, false)
    else DisableKeys(codes[actions[0] := 0], actions[1..])
  }

  /** EnableUserKeys on key codes: each action the snapshot has gets the snapshot's code. */
  function EnableKeys(codes: map<int, int>, snapshot: map<int, int>, actions: seq<int>): (r: KeyUpdate)
    ensures r.codes.Keys == codes.Keys
    decreases |actions|
  {
    if actions == [] then KeyUpdate(codes, true)
    else if actions[0] !in snapshot then EnableKeys(codes, snapshot, actions[1..])
    else if actions[0] !in codes then KeyUpdate(codes, false)
    else EnableKeys(codes[actions[0] := snapshot[actions[0]]], snapshot, actions[1..])
  }

  /** With every action bound, disabling completes, zeroes exactly those actions and
      keeps every other binding; with one missing, it throws. */
  lemma {:induction false} DisableZeroes(codes: map<int, int>, actions: seq<int>)
    ensures DisableKeys(codes, actions).complete <==> forall i | 0 <= i < |actions| :: actions[i] in codes
    ensures DisableKeys(codes, actions).codes.Keys == codes.Keys
    ensures forall a | a in codes ::
              DisableKeys(codes, actions).codes[a] == (if a in actions then 0 else codes[a])
              || !DisableKeys(codes, actions).complete
    decreases |actions|
  {
    if actions != [] && actions[0] in codes {
      var rest := actions[1..];
      DisableZeroes(codes[actions[0] := 0], rest);
      assert forall i | 0 <= i < |rest| :: rest[i] == actions[i + 1];
      assert forall a :: a in actions <==> a == actions[0] || a in rest;
    }
  }

  /** With every action bound, enabling completes, gives each action the snapshot has its
      snapshot code and keeps every other binding. */
  lemma {:induction false} EnableRestores(codes: map<int, int>, snapshot: map<int, int>, actions: seq<int>)
    requires forall i | 0 <= i < |actions| :: actions[i] in codes
    ensures EnableKeys(codes, snapshot, actions).complete
    ensures EnableKeys(codes, snapshot, actions).codes.Keys == codes.Keys
    ensures forall a | a in codes ::
              EnableKeys(codes, snapshot, actions).codes[a]
              == (if a in actions && a in snapshot then snapshot[a] else codes[a])
    decreases |actions|
  {
    if actions != [] {
      var a0, rest := actions[0], actions[1..];
      assert forall i | 0 <= i < |rest| :: rest[i] == actions[i + 1];
      assert forall a :: a in actions <==> a == a0 || a in rest;
      if a0 in snapshot {
        EnableRestores(codes[a0 := snapshot[a0]], snapshot, rest);
      } else {
        EnableRestores(codes, snapshot, rest);
      }
    }
  }

  /** Enabling needs only the actions the snapshot has: one the snapshot lacks is skipped,
      one the snapshot has and the settings lack throws. */
  lemma {:induction false} EnableCompletes(codes: map<int, int>, snapshot: map<int, int>, actions: seq<int>)
    ensures EnableKeys(codes, snapshot, actions).complete <==>
              forall i | 0 <= i < |actions| && actions[i] in snapshot :: actions[i] in codes
    decreases |actions|
  {
    if actions != [] {
      var a0, rest := actions[0], actions[1..];
      assert forall i | 0 <= i < |rest| :: rest[i] == actions[i + 1];
      if a0 in snapshot && a0 in codes {
        EnableCompletes(codes[a0 := snapshot[a0]], snapshot, rest);
      } else if a0 !in snapshot {
        EnableCompletes(codes, snapshot, rest);
      }
    }
  }

  /** Deactivating after activating puts the snapshot taken at construction back on the
      movement actions, whatever they were bound to when the cheat was activated; the
      other bindings are untouched. */
  lemma DisableThenEnable(codes: map<int, int>, snapshot: map<int, int>)
    requires forall i | 0 <= i < |MovementActions| :: MovementActions[i] in codes && MovementActions[i] in snapshot
    ensures DisableKeys(codes, MovementActions).complete
    ensures var restored := EnableKeys(DisableKeys(codes, MovementActions).codes, snapshot, MovementActions);
            && restored.complete
            && restored.codes.Keys == codes.Keys
            && (forall a | a in MovementActions :: restored.codes[a] == snapshot[a])
            && (forall a | a in codes && a !in MovementActions :: restored.codes[a] == codes[a])
  {
    DisableZeroes(codes, MovementActions);
    var disabled := DisableKeys(codes, MovementActions).codes;
    EnableRestores(disabled, snapshot, MovementActions);
  }

  /** After a write to the binding of one action, the key codes of the live map differ
      from the earlier ones at that action only, and the snapshot, which shares no object
      with the live map, is unchanged. */
  lemma Written(live: map<int, Keybind>, snapshot: map<int, Keybind>, action: int,
                before: map<int, int>, kept: map<int, int>)
    requires action in live
    requires before.Keys == live.Keys && kept.Keys == snapshot.Keys
    requires forall a | a in live && a != action :: live[a].key == before[a]
    requires forall a | a in snapshot :: snapshot[a].key == kept[a]
    ensures KeyCodes(live) == before[action := live[action].key]
    ensures KeyCodes(snapshot) == kept
  {
    var after := before[action := live[action].key];
    assert KeyCodes(live).Keys == after.Keys;
    forall a | a in live ensures KeyCodes(live)[a] == after[a] {
    }
    assert KeyCodes(snapshot).Keys == kept.Keys;
    forall a | a in snapshot ensures KeyCodes(snapshot)[a] == kept[a] {
    }
  }

  /** SettingsManager: the live bindings and the key settings saved so far. */
  class Settings {
    var keybinds: map<int, Keybind>
    var saved: seq<map<int, int>>

    constructor(keybinds: map<int, Keybind>)
      ensures this.keybinds == keybinds && saved == []
    {
      this.keybinds := keybinds;
      saved := [];
    }
  }

  /** The static Keybinds snapshot the fly cheats share. */
  class Snapshot {
    var keybinds: map<int, Keybind>

    constructor()
      ensures keybinds == map[]
    {
      keybinds := map[];
    }
  }

  class FlyCheat {
    var isActive: bool
    const snapshot: Snapshot
    const settings: Settings
    const patch: PatchIsGrounded

    /** The bindings are distinct objects and none of them is shared with the snapshot,
        so writing a live binding leaves the snapshot alone. */
    ghost predicate Valid()
      reads this, settings, snapshot
    {
      && Distinct(settings.keybinds)
      && forall a, b | a in snapshot.keybinds && b in settings.keybinds :: snapshot.keybinds[a] != settings.keybinds[b]
    }

    /** The constructor clones the live bindings into the static snapshot, replacing any
        earlier snapshot. */
    constructor(snapshot: Snapshot, settings: Settings, patch: PatchIsGrounded)
      requires Distinct(settings.keybinds)
      modifies snapshot
      ensures this.snapshot == snapshot && this.settings == settings && this.patch == patch
      ensures Valid() && !isActive
      ensures snapshot.keybinds.Keys == settings.keybinds.Keys
      ensures KeyCodes(snapshot.keybinds) == KeyCodes(settings.keybinds)
      ensures forall a | a in snapshot.keybinds :: fresh(snapshot.keybinds[a])
    {
      var copy := Clone(settings.keybinds);
      snapshot.keybinds := copy;
      isActive := false;
      this.snapshot := snapshot;
      this.settings := settings;
      this.patch := patch;
    }

    /** DisableUserKeys: sets the five movement bindings to 0 in turn, then saves and
        notifies; a missing action throws (ok is false) before anything is saved. */
    method DisableUserKeys() returns (ok: bool)
      requires Valid()
      modifies settings, settings.keybinds.Values
      ensures Valid()
      ensures settings.keybinds == old(settings.keybinds)
      ensures KeyCodes(snapshot.keybinds) == old(KeyCodes(snapshot.keybinds))
      ensures KeyCodes(settings.keybinds) == DisableKeys(old(KeyCodes(settings.keybinds)), MovementActions).codes
      ensures ok == DisableKeys(old(KeyCodes(settings.keybinds)), MovementActions).complete
      ensures settings.saved == old(settings.saved) + (if ok then [KeyCodes(settings.keybinds)] else [])
    {
      var i := 0;
      while i < |MovementActions|
        invariant 0 <= i <= |MovementActions|
        invariant Valid()
        invariant settings.keybinds == old(settings.keybinds) && settings.saved == old(settings.saved)
        invariant KeyCodes(snapshot.keybinds) == old(KeyCodes(snapshot.keybinds))
        invariant DisableKeys(KeyCodes(settings.keybinds), MovementActions[i..])
               == DisableKeys(old(KeyCodes(settings.keybinds)), MovementActions)
      {
        var action := MovementActions[i];
        assert MovementActions[i..][1..] == MovementActions[i + 1..];
        if action !in settings.keybinds {
          return false;
        }
        ghost var before := KeyCodes(settings.keybinds);
        ghost var kept := KeyCodes(snapshot.keybinds);
        settings.keybinds[action].key := 0;
        Written(settings.keybinds, snapshot.keybinds, action, before, kept);
        i := i + 1;
      }
      settings.saved := settings.saved + [KeyCodes(settings.keybinds)];
      return true;
    }

    /** EnableUserKeys: copies the snapshot's code into each of the five movement bindings
        the snapshot has, then saves and notifies; an action the snapshot has and the
        settings lack throws (ok is false) before anything is saved. */
    method EnableUserKeys() returns (ok: bool)
      requires Valid()
      modifies settings, settings.keybinds.Values
      ensures Valid()
      ensures settings.keybinds == old(settings.keybinds)
      ensures KeyCodes(snapshot.keybinds) == old(KeyCodes(snapshot.keybinds))
      ensures KeyCodes(settings.keybinds)
           == EnableKeys(old(KeyCodes(settings.keybinds)), KeyCodes(snapshot.keybinds), MovementActions).codes
      ensures ok == EnableKeys(old(KeyCodes(settings.keybinds)), KeyCodes(snapshot.keybinds), MovementActions).complete
      ensures settings.saved == old(settings.saved) + (if ok then [KeyCodes(settings.keybinds)] else [])
    {
      ghost var saved := KeyCodes(snapshot.keybinds);
      var i := 0;
      while i < |MovementActions|
        invariant 0 <= i <= |MovementActions|
        invariant Valid()
        invariant settings.keybinds == old(settings.keybinds) && settings.saved == old(settings.saved)
        invariant KeyCodes(snapshot.keybinds) == saved
        invariant EnableKeys(KeyCodes(settings.keybinds), saved, MovementActions[i..])
               == EnableKeys(old(KeyCodes(settings.keybinds)), saved, MovementActions)
      {
        var action := MovementActions[i];
        assert MovementActions[i..][1..] == MovementActions[i + 1..];
        if action in snapshot.keybinds {
          if action !in settings.keybinds {
            return false;
          }
          ghost var before := KeyCodes(settings.keybinds);
          settings.keybinds[action].key := snapshot.keybinds[action].key;
          Written(settings.keybinds, snapshot.keybinds, action, before, saved);
        }
        i := i + 1;
      }
      settings.saved := settings.saved + [KeyCodes(settings.keybinds)];
      return true;
    }

    /** Activate: disable the movement keys, then raise IsFlying; if disabling throws the
        flag stays where it was. */
    method Activate() returns (ok: bool)
      requires Valid()
      modifies settings, settings.keybinds.Values, patch
      ensures Valid()
      ensures settings.keybinds == old(settings.keybinds)
      ensures KeyCodes(settings.keybinds) == DisableKeys(old(KeyCodes(settings.keybinds)), MovementActions).codes
      ensures ok == DisableKeys(old(KeyCodes(settings.keybinds)), MovementActions).complete
      ensures patch.isFlying == (ok || old(patch.isFlying))
      ensures KeyCodes(snapshot.keybinds) == old(KeyCodes(snapshot.keybinds))
    {
      ok := DisableUserKeys();
      if ok {
        patch.isFlying := true;
      }
    }

    /** Deactivate: restore the movement keys from the snapshot, then lower IsFlying; if
        restoring throws the flag stays where it was. */
    method Deactivate() returns (ok: bool)
      requires Valid()
      modifies settings, settings.keybinds.Values, patch
      ensures Valid()
      ensures settings.keybinds == old(settings.keybinds)
      ensures KeyCodes(settings.keybinds)
           == EnableKeys(old(KeyCodes(settings.keybinds)), KeyCodes(snapshot.keybinds), MovementActions).codes
      ensures ok == EnableKeys(old(KeyCodes(settings.keybinds)), KeyCodes(snapshot.keybinds), MovementActions).complete
      ensures patch.isFlying == (!ok && old(patch.isFlying))
      ensures KeyCodes(snapshot.keybinds) == old(KeyCodes(snapshot.keybinds))
    {
      ok := EnableUserKeys();
      if ok {
        patch.isFlying := false;
      }
    }

    /** Toggle, as CheatContract defines it, with this cheat's hooks: the flag flips first,
        then the hook runs; ok is false when the hook throws. */
    method Toggle() returns (ok: bool)
      requires Valid()
      modifies this, settings, settings.keybinds.Values, patch
      ensures Valid()
      ensures isActive == !old(isActive)
      ensures settings.keybinds == old(settings.keybinds)
      ensures KeyCodes(snapshot.keybinds) == old(KeyCodes(snapshot.keybinds))
      ensures !old(isActive) ==>
                && KeyCodes(settings.keybinds) == DisableKeys(old(KeyCodes(settings.keybinds)), MovementActions).codes
                && ok == DisableKeys(old(KeyCodes(settings.keybinds)), MovementActions).complete
                && patch.isFlying == (ok || old(patch.isFlying))
      ensures old(isActive) ==>
                && KeyCodes(settings.keybinds)
                   == EnableKeys(old(KeyCodes(settings.keybinds)), KeyCodes(snapshot.keybinds), MovementActions).codes
                && ok == EnableKeys(old(KeyCodes(settings.keybinds)), KeyCodes(snapshot.keybinds), MovementActions).complete
                && patch.isFlying == (!ok && old(patch.isFlying))
    {
      if isActive {
        isActive := false;
        ok := Deactivate();
      } else {
        isActive := true;
        ok := Activate();
      }
    }

    /** The guards of OnUpdate, reached through CheatContract.Update: the player moves
        only while the cheat is active, IsFlying is up and there is a player entity. */
    method Update(playerPresent: bool) returns (moves: bool)
      ensures moves == (isActive && patch.isFlying && playerPresent)
    {
      moves := false;
      if !isActive {
        return;
      }
      if !patch.isFlying {
        return;
      }
      if !playerPresent {
        return;
      }
      moves := true;
    }
  }
}
