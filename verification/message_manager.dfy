/** The chat command layer of Library/Message/MessageManager.cs: how a chat line is
    classified and split into a verb and an argument, and the case-insensitive command
    registry with its dispatch, removal and registration loop. */
module Messages {
  import opened Wrappers
  import opened Text

  /** The exceptions that escape ProcessMessage. */
  datatype Fault =
    | NullReference     // a null message reaches message.StartsWith
    | IndexOutOfRange   // "!" followed only by white space leaves commandParts empty

  /** How ProcessMessage reads a line, before any lookup. */
  datatype Parsed =
    | Ordinary                                  // chat text: handed back to the game
    | Swallowed                                 // blank, "/..." or a bare "!"
    | Dispatch(verb: string, argument: string)  // "!verb argument"
    | Crash(fault: Fault)

  /** The verb and the argument as they sit in the trimmed command text t: the verb is the
      lower-cased first space-delimited word; the argument is what follows the run of
      spaces after it, or "" when nothing does. */
  predicate VerbAndArgument(t: string, verb: string, argument: string) {
    && 0 < |verb| <= |t|
    && Lower(t[..|verb|]) == verb
    && ' ' !in t[..|verb|]
    && (argument == "" ==> |verb| == |t|)
    && (argument != "" ==>
          && |verb| < |t| - |argument|
          && t[|t| - |argument|..] == argument
          && argument[0] != ' '
          && forall k | |verb| <= k < |t| - |argument| :: t[k] == ' ')
  }

  /** The classification and split of ProcessMessage; None stands for a null string. */
  function ParseMessage(message: Option<string>): (p: Parsed)
    ensures p == Crash(NullReference) <==> message.None?
    ensures p == Ordinary <==>
              && message.Some?
              && !IsNullOrWhiteSpace(message.value)
              && message.value[0] != '!' && message.value[0] != '/'
    ensures p == Swallowed <==>
              && message.Some?
              && (IsNullOrWhiteSpace(message.value) || message.value[0] == '/' || message.value == "!")
    ensures p == Crash(IndexOutOfRange) <==>
              && message.Some? && |message.value| > 1 && message.value[0] == '!'
              && IsNullOrWhiteSpace(message.value[1..])
    ensures p.Dispatch? <==>
              && message.Some? && |message.value| > 1 && message.value[0] == '!'
              && !IsNullOrWhiteSpace(message.value[1..])
    ensures p.Dispatch? ==> VerbAndArgument(Trim(message.value[1..]), p.verb, p.argument)
  {
    if message.Some? && !IsNullOrWhiteSpace(message.value)
       && !StartsWith(message.value, "!") && !StartsWith(message.value, "/") then
      Ordinary
    else if message.None? then
      Crash(NullReference)
    else
      var m := message.value;
      if !StartsWith(m, "!") || |m| <= 1 then
        Swallowed
      else
        assert m[0] == '!' && !IsWhiteSpace(m[0]);
        ParseCommand(Trim(m[1..]))
  }

  /** Lines 61-64 of ProcessMessage on the trimmed text t after "!": split once on
      spaces, dropping empty pieces, and lower-case the first piece. */
  function ParseCommand(t: string): (p: Parsed)
    requires t != "" ==> !IsWhiteSpace(t[0]) && !IsWhiteSpace(t[|t| - 1])
    ensures p == Crash(IndexOutOfRange) <==> t == ""
    ensures p != Crash(IndexOutOfRange) ==> p.Dispatch? && VerbAndArgument(t, p.verb, p.argument)
  {
    var parts := SplitInTwo(t, ' ');
    if parts == [] then
      Crash(IndexOutOfRange)
    else
      CommandPlaces(t);
      Dispatch(Lower(parts[0]), if |parts| > 1 then parts[1] else "")
  }

  /** The pieces of a trimmed, non-blank command text sit where VerbAndArgument says. */
  lemma CommandPlaces(t: string)
    requires t != "" && !IsWhiteSpace(t[0]) && !IsWhiteSpace(t[|t| - 1])
    ensures var parts := SplitInTwo(t, ' ');
            && parts != []
            && VerbAndArgument(t, Lower(parts[0]), if |parts| > 1 then parts[1] else "")
  {
    SplitInTwoPlaces(t, ' ');
    var parts := SplitInTwo(t, ' ');
    var word := parts[0];
    assert t[..|Lower(word)|] == word;
    assert ' ' !in t[..|word|];
  }

  /** The line a player types to run a command word with an argument. */
  function FormatCommand(word: string, argument: string): string {
    if argument == "" then "!" + word else "!" + word + " " + argument
  }

  /** A command word: non-empty and free of white space. */
  predicate IsWord(w: string) {
    w != "" && forall k | 0 <= k < |w| :: !IsWhiteSpace(w[k])
  }

  /** An argument survives the trip: empty, or neither starting nor ending with white space. */
  predicate IsArgument(a: string) {
    a == "" || (!IsWhiteSpace(a[0]) && !IsWhiteSpace(a[|a| - 1]))
  }

  /** Parsing a formatted command gives back the lower-cased word and the argument. */
  lemma ParseFormat(word: string, argument: string)
    requires IsWord(word) && IsArgument(argument)
    ensures ParseMessage(Some(FormatCommand(word, argument))) == Dispatch(Lower(word), argument)
  {
    var m := FormatCommand(word, argument);
    assert ' ' !in word by {
      forall k | 0 <= k < |word| ensures word[k] != ' ' {
        assert !IsWhiteSpace(word[k]);
      }
    }
    if argument == "" {
      assert m[1..] == word;
      TrimTrimmed(word);
      SplitInTwoWord(word, ' ');
    } else {
      assert m[1..] == word + [' '] + argument;
      TrimTrimmed(m[1..]);
      SplitInTwoPair(word, ' ', argument);
    }
  }

  /** The verb is looked up without regard to case: two spellings of a word that
      lower-case alike parse to the same dispatch. */
  lemma VerbCaseInsensitive(word1: string, word2: string, argument: string)
    requires IsWord(word1) && IsWord(word2) && IsArgument(argument)
    requires Lower(word1) == Lower(word2)
    ensures ParseMessage(Some(FormatCommand(word1, argument)))
         == ParseMessage(Some(FormatCommand(word2, argument)))
  {
    ParseFormat(word1, argument);
    ParseFormat(word2, argument);
  }

  /** Lines that reach no handler. */
  lemma NonCommandExamples()
    ensures ParseMessage(Some("hello")) == Ordinary
    ensures ParseMessage(Some("")) == Swallowed
    ensures ParseMessage(Some("/fly")) == Swallowed
    ensures ParseMessage(Some("!")) == Swallowed
    ensures ParseMessage(None) == Crash(NullReference)
  {
    assert !IsWhiteSpace("hello"[0]);
  }

  /** "!" and white space only: the split finds no piece and the lookup of the first
      piece fails. */
  lemma BlankCommandExample()
    ensures ParseMessage(Some("!  ")) == Crash(IndexOutOfRange)
  {
    assert IsNullOrWhiteSpace("!  "[1..]);
  }

  /** "!fly" gives ("fly", ""). */
  lemma FlyExample(fly: string)
    requires fly == "fly"
    ensures ParseMessage(Some("!" + fly)) == Dispatch(fly, "")
  {
    assert Lower(fly) == fly;
    ParseFormat(fly, "");
  }

  /** "!FLY" gives ("fly", "") too. */
  lemma UpperFlyExample(fly: string, upper: string)
    requires fly == "fly" && upper == "FLY"
    ensures ParseMessage(Some("!" + upper)) == Dispatch(fly, "")
  {
    var low := Lower(upper);
    assert low[0] == 'f' && low[1] == 'l' && low[2] == 'y';
    assert low == fly;
    ParseFormat(upper, "");
  }

  /** "!jumpheight 2.5" gives ("jumpheight", "2.5"). */
  lemma JumpHeightExample(verb: string, argument: string)
    requires verb == "jumpheight" && argument == "2.5"
    ensures ParseMessage(Some("!" + verb + " " + argument)) == Dispatch(verb, argument)
  {
    assert Lower(verb) == verb;
    ParseFormat(verb, argument);
  }

  /** A method tagged as a command, as reflection reports it: the CommandName of its
      CommandAttribute (None when GetCustomAttribute finds none) and whether it can be
      bound as an Action<string>. */
  datatype CommandMethod = CommandMethod(name: string, commandName: Option<string>, bindsAsAction: bool)

  /** A registry entry: the name as first registered and the handler bound to it. */
  datatype Command = Command(name: string, handler: CommandMethod)

  /** One call of a handler, with the argument it was given. */
  datatype Invocation = Invocation(handler: CommandMethod, argument: string)

  /** What ProcessMessage does with its caller: returns a flag or lets an exception out. */
  datatype Outcome = Returned(value: bool) | Threw(fault: Fault)

  /** What RegisterCommandsFromAssembly does with its caller. */
  datatype Registration = Registered | DelegateFailed(culprit: CommandMethod)

  /** The registry is keyed through a case-insensitive comparer, modelled by filing every
      entry under the lower-case form of its name. */
  predicate Filed(commands: map<string, Command>) {
    forall key | key in commands ::
      key == Lower(commands[key].name) && commands[key].handler.commandName == Some(commands[key].name)
  }

  /** The handler calls ProcessMessage makes for a line, given the registry. */
  function Called(commands: map<string, Command>, message: Option<string>): (calls: seq<Invocation>)
    ensures |calls| <= 1
    ensures calls != [] <==> ParseMessage(message).Dispatch? && Lower(ParseMessage(message).verb) in commands
    ensures calls != [] ==> calls[0].argument == ParseMessage(message).argument
    ensures calls != [] ==> calls[0].handler == commands[Lower(ParseMessage(message).verb)].handler
  {
    var p := ParseMessage(message);
    if p.Dispatch? && Lower(p.verb) in commands then
      [Invocation(commands[Lower(p.verb)].handler, p.argument)]
    else
      []
  }

  /** A registered name is reached by any spelling of it. */
  lemma RegisteredVerbDispatches(commands: map<string, Command>, key: string, word: string, argument: string)
    requires Filed(commands) && key in commands
    requires IsWord(word) && IsArgument(argument) && Lower(word) == key
    ensures Called(commands, Some(FormatCommand(word, argument)))
         == [Invocation(commands[key].handler, argument)]
  {
    ParseFormat(word, argument);
    LowerIdempotent(word);
  }

  /** A tagged method whose delegate cannot be created. */
  predicate Unbindable(m: CommandMethod) {
    m.commandName.Some? && !m.bindsAsAction
  }

  /** The position of the first unbindable tagged method, or |methods| if there is none:
      the registration loop gets that far. */
  function FirstUnbindable(methods: seq<CommandMethod>): (i: nat)
    ensures i <= |methods|
    ensures forall j | 0 <= j < i :: !Unbindable(methods[j])
    ensures i < |methods| ==> Unbindable(methods[i])
  {
    if methods == [] || Unbindable(methods[0]) then 0 else 1 + FirstUnbindable(methods[1..])
  }

  /** One pass of the registration loop: a tagged method whose name is not yet a key is
      filed under it; anything else leaves the registry alone. */
  function AddCommand(commands: map<string, Command>, m: CommandMethod): map<string, Command> {
    if m.commandName.Some? && Lower(m.commandName.value) !in commands then
      commands[Lower(m.commandName.value) := Command(m.commandName.value, m)]
    else
      commands
  }

  /** The registry after the loop has gone through the given methods. */
  function AddCommands(commands: map<string, Command>, methods: seq<CommandMethod>): (r: map<string, Command>)
    ensures forall key | key in commands :: key in r && r[key] == commands[key]
    ensures forall key | key in r && key !in commands ::
              exists i | 0 <= i < |methods| :: methods[i].commandName.Some? && Lower(methods[i].commandName.value) == key
    decreases |methods|
  {
    if methods == [] then commands else AddCommands(AddCommand(commands, methods[0]), methods[1..])
  }

  /** The keys a run of methods brings. */
  function Keys(methods: seq<CommandMethod>): set<string> {
    set i | 0 <= i < |methods| && methods[i].commandName.Some? :: Lower(methods[i].commandName.value)
  }

  /** First write wins over what is already registered: no entry is replaced, and the
      keys are the old keys plus those of the tagged methods. */
  lemma {:induction false} AddCommandsKeeps(commands: map<string, Command>, methods: seq<CommandMethod>)
    ensures forall key | key in commands :: key in AddCommands(commands, methods)
                                           && AddCommands(commands, methods)[key] == commands[key]
    ensures AddCommands(commands, methods).Keys == commands.Keys + Keys(methods)
    decreases |methods|
  {
    if methods != [] {
      AddCommandsKeeps(AddCommand(commands, methods[0]), methods[1..]);
      KeysCons(methods);
    }
  }

  /** The keys of a run: those of its first method and those of the rest. */
  lemma KeysCons(methods: seq<CommandMethod>)
    requires methods != []
    ensures Keys(methods) == Keys(methods[..1]) + Keys(methods[1..])
  {
    forall key | key in Keys(methods) ensures key in Keys(methods[..1]) + Keys(methods[1..]) {
      var i :| 0 <= i < |methods| && methods[i].commandName.Some? && key == Lower(methods[i].commandName.value);
      if i > 0 {
        assert methods[1..][i - 1] == methods[i];
      }
    }
    forall key | key in Keys(methods[1..]) ensures key in Keys(methods) {
      var i :| 0 <= i < |methods[1..]| && methods[1..][i].commandName.Some?
               && key == Lower(methods[1..][i].commandName.value);
      assert methods[i + 1] == methods[1..][i];
    }
  }

  /** First write wins within the run: a new key holds the first method that names it. */
  lemma {:induction false} AddCommandsFirst(commands: map<string, Command>, methods: seq<CommandMethod>, i: nat)
    requires i < |methods| && methods[i].commandName.Some?
    requires Lower(methods[i].commandName.value) !in commands
    requires forall j | 0 <= j < i && methods[j].commandName.Some? ::
               Lower(methods[j].commandName.value) != Lower(methods[i].commandName.value)
    ensures var key := Lower(methods[i].commandName.value);
            key in AddCommands(commands, methods)
            && AddCommands(commands, methods)[key] == Command(methods[i].commandName.value, methods[i])
    decreases i
  {
    var key := Lower(methods[i].commandName.value);
    if i == 0 {
      AddCommandsKeeps(AddCommand(commands, methods[0]), methods[1..]);
    } else {
      assert key !in AddCommand(commands, methods[0]);
      AddCommandsFirst(AddCommand(commands, methods[0]), methods[1..], i - 1);
    }
  }

  /** Registering the same methods again changes nothing. */
  lemma AddCommandsIdempotent(commands: map<string, Command>, methods: seq<CommandMethod>)
    ensures AddCommands(AddCommands(commands, methods), methods) == AddCommands(commands, methods)
  {
    AddCommandsKeeps(commands, methods);
    AddCommandsPresent(AddCommands(commands, methods), methods);
  }

  lemma {:induction false} AddCommandsPresent(commands: map<string, Command>, methods: seq<CommandMethod>)
    requires Keys(methods) <= commands.Keys
    ensures AddCommands(commands, methods) == commands
    decreases |methods|
  {
    if methods != [] {
      assert methods[0].commandName.Some? ==> Lower(methods[0].commandName.value) in Keys(methods);
      assert Keys(methods[1..]) <= Keys(methods) by {
        forall key | key in Keys(methods[1..]) ensures key in Keys(methods) {
          var i :| 0 <= i < |methods[1..]| && methods[1..][i].commandName.Some?
                   && key == Lower(methods[1..][i].commandName.value);
          assert methods[i + 1] == methods[1..][i];
        }
      }
      AddCommandsPresent(commands, methods[1..]);
    }
  }

  /** Registration keeps every entry filed under its lower-cased name. */
  lemma {:induction false} AddCommandsFiled(commands: map<string, Command>, methods: seq<CommandMethod>)
    requires Filed(commands)
    ensures Filed(AddCommands(commands, methods))
    decreases |methods|
  {
    if methods != [] {
      AddCommandsFiled(AddCommand(commands, methods[0]), methods[1..]);
    }
  }

  /** The command registry of MessageManager, with a record of the handler calls made. */
  class MessageManager {
    var commands: map<string, Command>
    var invocations: seq<Invocation>

    ghost predicate Valid()
      reads this
    {
      Filed(commands)
    }

    constructor()
      ensures Valid()
      ensures commands == map[] && invocations == []
    {
      commands := map[];
      invocations := [];
    }

    /** ProcessMessage. The handler runs when the line names a registered verb; whether it
        throws is the handlerThrows parameter, and it makes no difference to the result or
        to the registry, since the fault is caught and logged. */
    method ProcessMessage(message: Option<string>, handlerThrows: bool) returns (r: Outcome)
      modifies this
      ensures commands == old(commands)
      ensures invocations == old(invocations) + Called(commands, message)
      ensures r == Returned(true) <==> ParseMessage(message) == Ordinary
      ensures r.Threw? <==> ParseMessage(message).Crash?
      ensures r.Threw? ==> r.fault == ParseMessage(message).fault
    {
      var p := ParseMessage(message);
      match p {
        case Ordinary =>
          return Returned(true);
        case Swallowed =>
          return Returned(false);
        case Crash(fault) =>
          return Threw(fault);
        case Dispatch(verb, argument) =>
          var key := Lower(verb);
          if key in commands {
            invocations := invocations + [Invocation(commands[key].handler, argument)];
            if handlerThrows {
              // the exception is caught and logged
            }
            return Returned(false);
          } else {
            return Returned(false);
          }
      }
    }

    /** Remove: drops the entry the name matches without regard to case, if any. */
    method Remove(commandName: string)
      requires Valid()
      modifies this
      ensures Valid()
      ensures commands == old(commands) - {Lower(commandName)}
      ensures invocations == old(invocations)
    {
      if Lower(commandName) in commands {
        commands := commands - {Lower(commandName)};
      }
    }

    /** RegisterCommandsFromAssembly over the tagged methods GetMethodsWithAttribute
        lists. The delegate is created before the duplicate check and outside the try, so
        the first unbindable tagged method ends the loop with an exception. */
    method RegisterCommandsFromAssembly(methods: seq<CommandMethod>) returns (r: Registration)
      requires Valid()
      modifies this
      ensures Valid()
      ensures commands == AddCommands(old(commands), methods[..FirstUnbindable(methods)])
      ensures r == if FirstUnbindable(methods) < |methods| then DelegateFailed(methods[FirstUnbindable(methods)])
                   else Registered
      ensures invocations == old(invocations)
    {
      ghost var stop := FirstUnbindable(methods);
      var i := 0;
      while i < |methods|
        invariant 0 <= i <= stop
        invariant AddCommands(commands, methods[i..stop]) == AddCommands(old(commands), methods[..stop])
        invariant Filed(commands)
        invariant invocations == old(invocations)
      {
        var m := methods[i];
        if m.commandName.Some? {
          var name := m.commandName.value;
          if !m.bindsAsAction {
            assert methods[..stop] == methods[..i] + methods[i..stop];
            return DelegateFailed(m);
          }
          if Lower(name) !in commands {
            commands := commands[Lower(name) := Command(name, m)];
          }
        }
        assert methods[i..stop] == [m] + methods[i + 1..stop];
        i := i + 1;
      }
      return Registered;
    }
  }
}
