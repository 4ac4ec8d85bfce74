/** The per-frame callback list of Library/Mono/MonoManager.cs: methods tagged
    MonoUpdate become Action delegates appended to a list, and SubscribeUpdate runs the
    list every frame with a catch around each call. */
module Mono {
  import opened Wrappers

  /** What Activator.CreateInstance gives for a declaring type. */
  datatype Instantiation = Instance | NullInstance | ConstructorThrows

  /** A method tagged MonoUpdate, as reflection reports it. */
  datatype UpdateMethod = UpdateMethod(
    name: string,
    isStatic: bool,
    declaringType: Option<string>,   // None when MethodInfo.DeclaringType is null
    instantiation: Instantiation,    // creating an instance of the declaring type
    bindsAsAction: bool)             // Delegate.CreateDelegate(typeof(Action), ...) succeeds

  /** What creating the delegate for a method gives. */
  datatype Delegate = Bound(callback: UpdateMethod) | Null | Throws

  /** CreateStaticDelegate or CreateInstanceDelegate, as the method is static or not. */
  function DelegateFor(m: UpdateMethod): (d: Delegate)
    ensures d.Bound? ==> d.callback == m && m.bindsAsAction
    ensures d.Null? <==> !m.isStatic && (m.declaringType.None? || m.instantiation == NullInstance)
    ensures m.isStatic ==> (d.Bound? <==> m.bindsAsAction)
  {
    if m.isStatic then
      if m.bindsAsAction then Bound(m) else Throws
    else if m.declaringType.None? then
      Null
    else if m.instantiation == ConstructorThrows then
      Throws
    else if m.instantiation == NullInstance then
      Null
    else if m.bindsAsAction then
      Bound(m)
    else
      Throws
  }

  predicate Binds(m: UpdateMethod) {
    DelegateFor(m).Bound?
  }

  /** The position of the first method whose delegate creation throws, or |methods|: the
      registration loop gets that far. */
  function FirstThrow(methods: seq<UpdateMethod>): (i: nat)
    ensures i <= |methods|
    ensures forall j | 0 <= j < i :: !DelegateFor(methods[j]).Throws?
    ensures i < |methods| ==> DelegateFor(methods[i]).Throws?
  {
    if methods == [] || DelegateFor(methods[0]).Throws? then 0 else 1 + FirstThrow(methods[1..])
  }

  /** The callbacks a registration appends: the methods that bind, in discovery order, up
      to the first that throws. */
  function Appended(methods: seq<UpdateMethod>): (callbacks: seq<UpdateMethod>)
    ensures forall i | 0 <= i < |callbacks| :: Binds(callbacks[i])
  {
    Where(methods[..FirstThrow(methods)], Binds)
  }

  /** Registration keeps discovery order and does not de-duplicate: when no delegate
      creation throws in the first run, registering two runs appends the callbacks of
      each in turn, so a method listed twice is appended twice. */
  lemma {:induction false} AppendedConcat(first: seq<UpdateMethod>, second: seq<UpdateMethod>)
    requires FirstThrow(first) == |first|
    ensures Appended(first + second) == Appended(first) + Appended(second)
    decreases |first|
  {
    if first == [] {
      assert first + second == second;
      assert first[..0] == [];
    } else {
      var m, rest := first[0], first[1..];
      var head := if Binds(m) then [m] else [];
      assert !DelegateFor(m).Throws? && FirstThrow(rest) == |rest|;
      calc {
        Appended(first + second);
        { assert first + second == [m] + (rest + second); }
        Appended([m] + (rest + second));
        { AppendedCons(m, rest + second); }
        head + Appended(rest + second);
        { AppendedConcat(rest, second); }
        head + (Appended(rest) + Appended(second));
        (head + Appended(rest)) + Appended(second);
        { AppendedCons(m, rest); assert first == [m] + rest; }
        Appended(first) + Appended(second);
      }
    }
  }

  /** A method in front whose delegate creation does not throw contributes its own
      callback, if it binds, ahead of the rest. */
  lemma AppendedCons(m: UpdateMethod, methods: seq<UpdateMethod>)
    requires !DelegateFor(m).Throws?
    ensures Appended([m] + methods) == (if Binds(m) then [m] else []) + Appended(methods)
  {
    var all := [m] + methods;
    assert all[0] == m && all[1..] == methods;
    var prefix := all[..FirstThrow(all)];
    assert prefix[0] == m && prefix[1..] == methods[..FirstThrow(methods)];
  }

  /** The registration loop reaching position i keeps going past it or ends there. */
  lemma ThrowsAt(methods: seq<UpdateMethod>, i: nat)
    requires i < |methods| && i <= FirstThrow(methods) && DelegateFor(methods[i]).Throws?
    ensures FirstThrow(methods) == i
  {
  }

  /** One more method filtered: it is kept when it binds. */
  lemma BindsStep(methods: seq<UpdateMethod>, i: nat)
    requires i < |methods|
    ensures Where(methods[..i + 1], Binds)
         == Where(methods[..i], Binds) + (if Binds(methods[i]) then [methods[i]] else [])
  {
    var m := methods[i];
    assert methods[..i + 1] == methods[..i] + [m];
    WhereAppend(methods[..i], [m], Binds);
    assert [m][1..] == [];
  }

  /** A method with no usable delegate is never appended, and one whose creation throws
      ends the registration. */
  lemma NullNeverAppended(m: UpdateMethod)
    requires !m.isStatic && (m.declaringType.None? || m.instantiation == NullInstance)
    ensures Appended([m]) == []
    ensures Appended([m, m]) == []
  {
    assert FirstThrow([m]) == 1;
    assert [m][..1] == [m];
    assert FirstThrow([m, m]) == 2 by {
      assert [m, m][1..] == [m];
    }
    assert [m, m][..2] == [m, m];
    assert [m, m][1..] == [m];
  }

  /** The positions below n that are in faulty, in increasing order. */
  function InOrder(n: nat, faulty: set<nat>): (positions: seq<nat>)
    ensures forall i | 0 <= i < |positions| :: positions[i] < n && positions[i] in faulty
    ensures forall i | 0 <= i < n && i in faulty :: i in positions
    ensures forall i, j | 0 <= i < j < |positions| :: positions[i] < positions[j]
  {
    if n == 0 then [] else InOrder(n - 1, faulty) + (if n - 1 in faulty then [n - 1] else [])
  }

  datatype Registration = Registered | DelegateThrew(culprit: UpdateMethod)

  class MonoManager {
    /** _updateMethods */
    var updateMethods: seq<UpdateMethod>
    /** The callbacks run so far, in order. */
    var invoked: seq<UpdateMethod>
    /** For each pass, the list positions whose callback threw and was logged. */
    var failures: seq<nat>

    constructor()
      ensures updateMethods == [] && invoked == [] && failures == []
    {
      updateMethods := [];
      invoked := [];
      failures := [];
    }

    /** SubscribeUpdate: every callback runs once, in list order; those that throw
        (positions in faulty) are caught and logged and the rest of the pass goes on. The
        list is not changed. */
    method SubscribeUpdate(faulty: set<nat>)
      modifies this
      ensures updateMethods == old(updateMethods)
      ensures invoked == old(invoked) + updateMethods
      ensures failures == old(failures) + InOrder(|updateMethods|, faulty)
    {
      var i := 0;
      while i < |updateMethods|
        invariant 0 <= i <= |updateMethods|
        invariant updateMethods == old(updateMethods)
        invariant invoked == old(invoked) + updateMethods[..i]
        invariant failures == old(failures) + InOrder(i, faulty)
      {
        var callback := updateMethods[i];
        invoked := invoked + [callback];
        if i in faulty {
          failures := failures + [i];
        }
        assert updateMethods[..i + 1] == updateMethods[..i] + [callback];
        i := i + 1;
      }
      assert updateMethods[..i] == updateMethods;
    }

    /** RegisterMonoUpdatesFromAssembly over the tagged methods GetMethodsWithAttribute
        lists: each delegate that is created is appended; nothing catches an exception
        from creating one, so the first such exception ends the loop. */
    method RegisterMonoUpdatesFromAssembly(methods: seq<UpdateMethod>) returns (r: Registration)
      modifies this
      ensures updateMethods == old(updateMethods) + Appended(methods)
      ensures r == if FirstThrow(methods) < |methods| then DelegateThrew(methods[FirstThrow(methods)])
                   else Registered
      ensures invoked == old(invoked) && failures == old(failures)
    {
      ghost var stop := FirstThrow(methods);
      var i := 0;
      while i < |methods|
        invariant 0 <= i <= stop
        invariant updateMethods == old(updateMethods) + Where(methods[..i], Binds)
        invariant invoked == old(invoked) && failures == old(failures)
      {
        var m := methods[i];
        var d := DelegateFor(m);
        if d.Throws? {
          ThrowsAt(methods, i);
          return DelegateThrew(m);
        }
        BindsStep(methods, i);
        if d.Bound? {
          updateMethods := updateMethods + [d.callback];
        }
        i := i + 1;
      }
      assert methods[..i] == methods[..stop];
      return Registered;
    }
  }
}
