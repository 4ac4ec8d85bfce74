/** The toggleable cheats of Library/Cheat: the two-state CheatContract of
    Abstractions/CheatContract.cs and the name-keyed registry of CheatManager.cs. The
    hooks a concrete cheat overrides (Activate, Deactivate, OnUpdate) are opaque: each
    cheat records the calls made to them, and whether one throws is a parameter. */
module Cheats {
  import opened Wrappers

  /** The `object arguments` handed to Toggle: null or some value. */
  type Arguments = Option<string>

  /** A call of one of the hooks. */
  datatype HookCall = Activated(arguments: Arguments) | Deactivated | Updated

  /** The hook Toggle calls from a given state. */
  function ToggleHook(active: bool, arguments: Arguments): HookCall {
    if active then Deactivated else Activated(arguments)
  }

  /** The flag and the hook calls after a run of Toggles, one per entry of argumentsList. */
  function Toggles(active: bool, argumentsList: seq<Arguments>): (bool, seq<HookCall>)
    decreases |argumentsList|
  {
    if argumentsList == [] then
      (active, [])
    else
      var rest := Toggles(!active, argumentsList[1..]);
      (rest.0, [ToggleHook(active, argumentsList[0])] + rest.1)
  }

  /** Toggling n times leaves the flag flipped exactly when n is odd, makes one hook call
      per Toggle, and the calls alternate between Activate and Deactivate, starting from
      the one the initial state calls for. */
  lemma {:induction false} TogglesAlternate(active: bool, argumentsList: seq<Arguments>)
    ensures Toggles(active, argumentsList).0 == (active != (|argumentsList| % 2 == 1))
    ensures |Toggles(active, argumentsList).1| == |argumentsList|
    ensures forall i | 0 <= i < |argumentsList| ::
              Toggles(active, argumentsList).1[i] == ToggleHook(active != (i % 2 == 1), argumentsList[i])
    decreases |argumentsList|
  {
    if argumentsList != [] {
      TogglesAlternate(!active, argumentsList[1..]);
      var hooks := Toggles(active, argumentsList).1;
      forall i | 1 <= i < |argumentsList|
        ensures hooks[i] == ToggleHook(active != (i % 2 == 1), argumentsList[i])
      {
        assert hooks[i] == Toggles(!active, argumentsList[1..]).1[i - 1];
        assert argumentsList[1..][i - 1] == argumentsList[i];
      }
    }
  }

  /** Two Toggles restore the flag, with one Activate and one Deactivate call whose order
      depends on the starting state. */
  lemma ToggleTwice(active: bool, first: Arguments, second: Arguments)
    ensures Toggles(active, [first, second]).0 == active
    ensures Toggles(active, [first, second]).1
         == if active then [Deactivated, Activated(second)] else [Activated(first), Deactivated]
  {
    TogglesAlternate(active, [first, second]);
  }

  /** A cheat: the IsActive flag and the record of hook calls. */
  class CheatContract {
    /** The concrete type the instance was created from. */
    const typeName: string
    var isActive: bool
    var hooks: seq<HookCall>

    /** A new cheat starts inactive. */
    constructor(typeName: string)
      ensures this.typeName == typeName
      ensures !isActive && hooks == []
    {
      this.typeName := typeName;
      isActive := false;
      hooks := [];
    }

    /** Toggle: the flag is written first and the hook called after, so a hook that
        throws (hookThrows) leaves the new flag in place; the exception goes to the caller
        (threw). */
    method Toggle(arguments: Arguments, hookThrows: bool) returns (threw: bool)
      modifies this
      ensures isActive == !old(isActive)
      ensures hooks == old(hooks) + [ToggleHook(old(isActive), arguments)]
      ensures threw == hookThrows
    {
      if isActive {
        isActive := false;
        hooks := hooks + [Deactivated];
      } else {
        isActive := true;
        hooks := hooks + [Activated(arguments)];
      }
      threw := hookThrows;
    }

    /** Update: OnUpdate runs only while active; the flag never changes. */
    method Update(onUpdateThrows: bool) returns (threw: bool)
      modifies this
      ensures isActive == old(isActive)
      ensures hooks == old(hooks) + (if isActive then [Updated] else [])
      ensures threw == (isActive && onUpdateThrows)
    {
      if isActive {
        hooks := hooks + [Updated];
      }
      threw := isActive && onUpdateThrows;
    }

    /** A direct call of the Deactivate hook, as CheatManager.Unload makes it: the flag
        is left as it was. */
    method Deactivate(hookThrows: bool) returns (threw: bool)
      modifies this
      ensures isActive == old(isActive)
      ensures hooks == old(hooks) + [Deactivated]
      ensures threw == hookThrows
    {
      hooks := hooks + [Deactivated];
      threw := hookThrows;
    }
  }

  /** What Activator.CreateInstance gives for a type. */
  datatype Instantiation =
    | Instance(isCheat: bool)   // an object, which is a CheatContract or not
    | NullInstance
    | ConstructorThrows

  /** A type carrying CheatAttribute: its name, the attribute's Name (None for null) and
      what creating an instance gives. */
  datatype CheatType = CheatType(name: string, cheatName: Option<string>, instantiation: Instantiation)

  /** The types the loop files: a non-null name and a CheatContract instance. Every other
      type is skipped, by `continue` or by the catch around the body. */
  predicate Registers(t: CheatType) {
    t.cheatName.Some? && t.instantiation == Instance(true)
  }

  /** Which type's instance ends up under each cheat name: later types overwrite earlier
      ones. */
  function Registered(types: seq<CheatType>): (r: map<string, string>)
    ensures |r| <= |types|
    decreases |types|
  {
    if types == [] then
      map[]
    else
      var before := Registered(types[..|types| - 1]);
      var t := types[|types| - 1];
      if Registers(t) then before[t.cheatName.value := t.name] else before
  }

  /** The names registered are exactly those of the types that register. */
  lemma {:induction false} RegisteredNames(types: seq<CheatType>, cheatName: string)
    ensures cheatName in Registered(types) <==>
              exists i | 0 <= i < |types| :: Registers(types[i]) && types[i].cheatName.value == cheatName
    decreases |types|
  {
    if types != [] {
      var init := types[..|types| - 1];
      RegisteredNames(init, cheatName);
      if i :| 0 <= i < |init| && Registers(init[i]) && init[i].cheatName.value == cheatName {
        assert types[i] == init[i];
      }
      if i :| 0 <= i < |types| - 1 && Registers(types[i]) && types[i].cheatName.value == cheatName {
        assert init[i] == types[i];
      }
    }
  }

  /** Registering one more type files it on top of what the earlier ones filed. */
  lemma RegisteredStep(types: seq<CheatType>, i: nat)
    requires i < |types|
    ensures Registered(types[..i + 1])
         == if Registers(types[i]) then Registered(types[..i])[types[i].cheatName.value := types[i].name]
            else Registered(types[..i])
  {
    assert types[..i + 1][..i] == types[..i];
  }

  /** Last write wins: a name holds the instance of the last type registering it. */
  lemma {:induction false} RegisteredLastWins(types: seq<CheatType>, i: nat)
    requires i < |types| && Registers(types[i])
    requires forall j | i < j < |types| :: !(Registers(types[j]) && types[j].cheatName == types[i].cheatName)
    ensures types[i].cheatName.value in Registered(types)
    ensures Registered(types)[types[i].cheatName.value] == types[i].name
    decreases |types|
  {
    if i < |types| - 1 {
      var init := types[..|types| - 1];
      assert init[i] == types[i];
      RegisteredLastWins(init, i);
    }
  }

  /** The names whose cheat gets an Update call in one pass of CheatManager.Update: the
      active ones, in the order the dictionary hands them out, up to and including the
      first whose OnUpdate throws, since nothing in the pass catches. */
  function UpdatePass(order: seq<string>, active: set<string>, faulty: set<string>): (updated: seq<string>)
    ensures |updated| <= |order|
    ensures forall i | 0 <= i < |updated| :: updated[i] in active && updated[i] in order
    decreases |order|
  {
    if order == [] then
      []
    else if order[0] !in active then
      UpdatePass(order[1..], active, faulty)
    else if order[0] in faulty then
      [order[0]]
    else
      [order[0]] + UpdatePass(order[1..], active, faulty)
  }

  /** The position of the first active name whose OnUpdate throws, or |order|. */
  function FirstFault(order: seq<string>, active: set<string>, faulty: set<string>): (i: nat)
    ensures i <= |order|
    ensures forall j | 0 <= j < i :: !(order[j] in active && order[j] in faulty)
    ensures i < |order| ==> order[i] in active && order[i] in faulty
    decreases |order|
  {
    if order == [] || (order[0] in active && order[0] in faulty) then 0
    else 1 + FirstFault(order[1..], active, faulty)
  }

  /** How far into the order a pass gets: through the first fault, or to the end. */
  function PassEnd(order: seq<string>, active: set<string>, faulty: set<string>): (end: nat)
    ensures end <= |order|
  {
    var stop := FirstFault(order, active, faulty);
    if stop < |order| then stop + 1 else stop
  }

  /** One step of a pass, from position i. */
  lemma UpdatePassStep(order: seq<string>, i: nat, active: set<string>, faulty: set<string>)
    requires i < |order|
    ensures UpdatePass(order[i..], active, faulty)
         == if order[i] !in active then UpdatePass(order[i + 1..], active, faulty)
            else if order[i] in faulty then [order[i]]
            else [order[i]] + UpdatePass(order[i + 1..], active, faulty)
  {
    assert order[i..][0] == order[i];
    assert order[i..][1..] == order[i + 1..];
  }

  predicate IsActiveName(active: set<string>, name: string) {
    name in active
  }

  /** A pass updates the active names in order, stopping after the first that throws:
      without a fault it updates every active name, and nothing after a fault is updated. */
  lemma {:induction false} UpdatePassActive(order: seq<string>, active: set<string>, faulty: set<string>)
    ensures UpdatePass(order, active, faulty)
         == Where(order[..PassEnd(order, active, faulty)], name => IsActiveName(active, name))
    decreases |order|
  {
    var stop := FirstFault(order, active, faulty);
    var inActive := name => IsActiveName(active, name);
    if order != [] {
      var end := PassEnd(order, active, faulty);
      if order[0] in active && order[0] in faulty {
        assert order[..end] == [order[0]];
        assert Where([order[0]], inActive) == [order[0]] + Where([], inActive);
      } else {
        var rest := order[1..];
        UpdatePassActive(rest, active, faulty);
        assert end == PassEnd(rest, active, faulty) + 1;
        var done := order[..end];
        assert done[0] == order[0] && done[1..] == rest[..end - 1];
      }
    }
  }

  /** The names a pass updates: the active ones in the part of the order it gets through. */
  lemma PassMembers(order: seq<string>, active: set<string>, faulty: set<string>)
    ensures forall name :: name in UpdatePass(order, active, faulty) <==>
              name in active && name in order[..PassEnd(order, active, faulty)]
  {
    UpdatePassActive(order, active, faulty);
    forall name
      ensures name in UpdatePass(order, active, faulty) <==>
              name in active && name in order[..PassEnd(order, active, faulty)]
    {
      WhereMembers(order[..PassEnd(order, active, faulty)], n => IsActiveName(active, n), name);
    }
  }

  /** The names whose flag is set. */
  function ActiveIn(flags: map<string, bool>): (active: set<string>)
    ensures forall name :: name in active <==> name in flags && flags[name]
  {
    set name | name in flags && flags[name]
  }

  /** The pass has not yet met a fault at i, and order[i] is one. */
  lemma FaultAt(order: seq<string>, active: set<string>, faulty: set<string>, i: nat)
    requires i < |order| && i <= FirstFault(order, active, faulty)
    requires order[i] in active && order[i] in faulty
    ensures PassEnd(order, active, faulty) == i + 1
  {
  }

  /** The pass has not yet met a fault at i, and order[i] is none. */
  lemma NoFaultAt(order: seq<string>, active: set<string>, faulty: set<string>, i: nat)
    requires i < |order| && i <= FirstFault(order, active, faulty)
    requires !(order[i] in active && order[i] in faulty)
    ensures i + 1 <= FirstFault(order, active, faulty)
  {
  }

  /** Hook records after a pass that updated the names in updated. */
  function Bumped(hooks: map<string, seq<HookCall>>, updated: seq<string>): (r: map<string, seq<HookCall>>)
    ensures r.Keys == hooks.Keys
  {
    map name | name in hooks :: hooks[name] + (if name in updated then [Updated] else [])
  }

  /** Hook records once the active names among done have had their Update call. */
  function Bump(hooks: map<string, seq<HookCall>>, active: set<string>, done: seq<string>): (r: map<string, seq<HookCall>>)
    ensures r.Keys == hooks.Keys
  {
    map name | name in hooks :: hooks[name] + (if name in active && name in done then [Updated] else [])
  }

  /** Moving one name further through a duplicate-free order adds its Update call and
      nothing else. */
  lemma BumpStep(hooks: map<string, seq<HookCall>>, active: set<string>, order: seq<string>, i: nat)
    requires i < |order| && order[i] in hooks
    requires forall j, k | 0 <= j < k < |order| :: order[j] != order[k]
    ensures var before := Bump(hooks, active, order[..i]);
            Bump(hooks, active, order[..i + 1])
            == before[order[i] := before[order[i]] + (if order[i] in active then [Updated] else [])]
  {
    var before := Bump(hooks, active, order[..i]);
    var after := Bump(hooks, active, order[..i + 1]);
    PrefixStep(order, i);
    forall name | name in hooks
      ensures after[name] == before[order[i] := before[order[i]] + (if order[i] in active then [Updated] else [])][name]
    {
    }
  }

  /** The first i + 1 names of a duplicate-free order: those of the first i, which do not
      include the next one, and the next one. */
  lemma PrefixStep(order: seq<string>, i: nat)
    requires i < |order|
    requires forall j, k | 0 <= j < k < |order| :: order[j] != order[k]
    ensures order[i] !in order[..i]
    ensures forall name :: name in order[..i + 1] <==> name in order[..i] || name == order[i]
  {
    assert order[..i + 1] == order[..i] + [order[i]];
  }

  /** Before the pass starts, no record is bumped. */
  lemma BumpNone(hooks: map<string, seq<HookCall>>, active: set<string>)
    ensures Bump(hooks, active, []) == hooks
  {
    forall name | name in hooks
      ensures Bump(hooks, active, [])[name] == hooks[name]
    {
      assert hooks[name] + [] == hooks[name];
    }
  }

  /** A pass leaves exactly the records of the names it updated bumped. */
  lemma PassBumps(hooks: map<string, seq<HookCall>>, order: seq<string>, active: set<string>, faulty: set<string>)
    ensures Bump(hooks, active, order[..PassEnd(order, active, faulty)])
         == Bumped(hooks, UpdatePass(order, active, faulty))
  {
    PassMembers(order, active, faulty);
  }

  /** The registry of CheatManager: cheat names, compared case-sensitively, to cheats.
      Every name holds its own instance, since each comes from a fresh CreateInstance. */
  class CheatManager {
    var cheats: map<string, CheatContract>

    ghost predicate Valid()
      reads this
    {
      forall a, b | a in cheats && b in cheats && a != b :: cheats[a] != cheats[b]
    }

    /** The names of the active cheats. */
    ghost function Active(): set<string>
      reads this, cheats.Values
    {
      ActiveIn(Flags())
    }

    constructor()
      ensures Valid() && cheats == map[]
    {
      cheats := map[];
    }

    /** ToggleCheat: an unknown name does nothing; a known one toggles that cheat alone. */
    method ToggleCheat(name: string, arguments: Arguments, hookThrows: bool) returns (threw: bool)
      requires Valid()
      modifies if name in cheats then {cheats[name]} else {}
      ensures cheats == old(cheats)
      ensures name !in cheats ==> !threw
      ensures name in cheats ==>
                && cheats[name].isActive == !old(cheats[name].isActive)
                && cheats[name].hooks == old(cheats[name].hooks) + [ToggleHook(old(cheats[name].isActive), arguments)]
                && threw == hookThrows
      ensures forall other | other in cheats && other != name ::
                cheats[other].isActive == old(cheats[other].isActive) && cheats[other].hooks == old(cheats[other].hooks)
    {
      threw := false;
      if name in cheats {
        threw := cheats[name].Toggle(arguments, hookThrows);
      }
    }

    /** Unload: a known cheat gets a Deactivate call whatever its state and is then
        removed, unless that call throws; an unknown name does nothing. */
    method Unload(name: string, deactivateThrows: bool) returns (threw: bool)
      requires Valid()
      modifies this, if name in cheats then {cheats[name]} else {}
      ensures Valid()
      ensures name !in old(cheats) ==> cheats == old(cheats) && !threw
      ensures name in old(cheats) ==>
                && old(cheats)[name].hooks == old(cheats[name].hooks) + [Deactivated]
                && old(cheats)[name].isActive == old(cheats[name].isActive)
                && cheats == (if deactivateThrows then old(cheats) else old(cheats) - {name})
                && threw == deactivateThrows
      ensures forall other | other in old(cheats) && other != name ::
                other in cheats && cheats[other] == old(cheats)[other]
                && cheats[other].isActive == old(cheats[other].isActive)
                && cheats[other].hooks == old(cheats[other].hooks)
    {
      threw := false;
      if name !in cheats {
        return;
      }
      threw := cheats[name].Deactivate(deactivateThrows);
      if threw {
        return;
      }
      cheats := cheats - {name};
    }

    /** RegisterCheatsFromAssembly over the tagged types GetTypesWithAttribute lists: each
        type that registers gets a new inactive instance filed under its cheat name,
        replacing whatever was there; the other types are skipped. */
    method RegisterCheatsFromAssembly(types: seq<CheatType>)
      requires Valid()
      modifies this
      ensures Valid()
      ensures forall name :: name in cheats <==> name in old(cheats) || name in Registered(types)
      ensures forall name | name in Registered(types) ::
                && fresh(cheats[name])
                && cheats[name].typeName == Registered(types)[name]
                && !cheats[name].isActive && cheats[name].hooks == []
      ensures forall name | name in old(cheats) && name !in Registered(types) :: cheats[name] == old(cheats)[name]
    {
      var i := 0;
      while i < |types|
        invariant 0 <= i <= |types|
        invariant Valid()
        invariant forall name :: name in cheats <==> name in old(cheats) || name in Registered(types[..i])
        invariant forall name | name in Registered(types[..i]) ::
                    && fresh(cheats[name])
                    && cheats[name].typeName == Registered(types[..i])[name]
                    && !cheats[name].isActive && cheats[name].hooks == []
        invariant forall name | name in old(cheats) && name !in Registered(types[..i]) ::
                    cheats[name] == old(cheats)[name]
      {
        var t := types[i];
        RegisteredStep(types, i);
        if Registers(t) {
          var cheat := new CheatContract(t.name);
          cheats := cheats[t.cheatName.value := cheat];
        }
        i := i + 1;
      }
      assert types[..|types|] == types;
    }
  
    /** The IsActive flag of every cheat, by name. */
    ghost function Flags(): map<string, bool>
      reads this, cheats.Values
    {
      map name | name in cheats :: cheats[name].isActive
    }

    /** The hook calls of every cheat, by name. */
    ghost function Hooks(): map<string, seq<HookCall>>
      reads this, cheats.Values
    {
      map name | name in cheats :: cheats[name].hooks
    }

    /** The static Update, one pass: each active cheat, in the dictionary's order, gets an
        Update call; the first OnUpdate that throws (faulty) ends the pass, and the
        exception leaves the method (threw). */
    method Update(order: seq<string>, faulty: set<string>) returns (threw: bool)
      requires Valid()
      requires forall i, j | 0 <= i < j < |order| :: order[i] != order[j]
      requires |order| == |cheats| && forall i | 0 <= i < |order| :: order[i] in cheats
      modifies cheats.Values
      ensures threw == (FirstFault(order, old(Active()), faulty) < |order|)
      ensures Flags() == old(Flags())
      ensures Hooks() == Bump(old(Hooks()), old(Active()), order[..PassEnd(order, old(Active()), faulty)])
    {
      ghost var flags := Flags();
      ghost var active := ActiveIn(flags);
      ghost var hooks := Hooks();
      BumpNone(hooks, active);
      var i := 0;
      while i < |order|
        invariant i <= FirstFault(order, active, faulty)
        invariant Valid()
        invariant Flags() == flags
        invariant Hooks() == Bump(hooks, active, order[..i])
      {
        var name := order[i];
        var fault := UpdateOne(name, name in faulty);
        BumpStep(hooks, active, order, i);
        if fault {
          FaultAt(order, active, faulty, i);
          return true;
        }
        NoFaultAt(order, active, faulty, i);
        i := i + 1;
      }
      assert order[..|order|] == order;
      return false;
    }

    /** One step of the pass: the cheat under name gets an Update call, and no other
        cheat changes. */
    method UpdateOne(name: string, onUpdateThrows: bool) returns (threw: bool)
      requires Valid() && name in cheats
      modifies cheats[name]
      ensures Flags() == old(Flags())
      ensures Hooks() == old(Hooks())[name := old(Hooks())[name] + (if old(Flags())[name] then [Updated] else [])]
      ensures threw == (old(Flags())[name] && onUpdateThrows)
    {
      threw := cheats[name].Update(onUpdateThrows);
    }
  }
}
