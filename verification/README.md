# Quest host core in Dafny

Quest is a plugin and extension host that runs inside a Unity game. This project models
its registry and dispatch layer:

- the chat command layer (`MessageManager`). It classifies a chat line, splits `!verb argument`,
  looks the verb up without regard to case, and registers, removes and dispatches command handlers;
- the toggleable cheats (`CheatContract`, `CheatManager`). They cover the two-state
  toggle, the name-keyed registry, unloading and the per-frame update pass;
- the fly cheat (`FlyCheat`). It takes a key-binding snapshot at construction, zeroes and
  restores the five movement bindings, raises and lowers the `IsFlying` flag, and guards its `OnUpdate`;
- the `IsGrounded` postfix of `PatchIsGrounded`;
- the per-frame callback list (`MonoManager`): registration of tagged methods as delegates,
  and a pass that runs every callback with a catch around each;
- the plugin list (`PluginManager`): loading one plugin per DLL, and unloading by name;
- the reflection scanner (`ReflectionsUtility`): the assembly blacklist, the tagged
  method and type scans, and `SafeGetTypes`;
- the `quest` chat command (`QuestCommand`), which reads a comma-separated list of quest ids.

Reflection, the game and plugin code are outside the model. They appear as descriptor
datatypes carrying what reflection would report: whether an attribute is present,
whether a delegate binds, and what `Activator.CreateInstance` gives. A handler or hook
is opaque. The model records each call to one in a trace field, and whether the call
throws is a parameter of the operation. The order in which a `Dictionary` hands out its
values and the order of `Directory.GetFiles` are parameters too.

Modules and files:

| file | module | models |
|---|---|---|
| wrappers.dfy | `Wrappers` | `Option` for null, and the LINQ `Where` filters |
| text.dfy | `Text` | the .NET string primitives used: `Trim`, `Split`, the two-piece `Split` with `RemoveEmptyEntries`, `ToLower`, `StartsWith`, `Contains` |
| int32.dfy | `Int32` | `int.TryParse` and decimal formatting |
| quest_command.dfy | `QuestCommand` | Library/Message/Commands/QuestCommand.cs |
| reflection.dfy | `Reflection` | Library/Utilities/ReflectionsUtility.cs |
| message_manager.dfy | `Messages` | Library/Message/MessageManager.cs |
| cheats.dfy | `Cheats` | Library/Cheat/Abstractions/CheatContract.cs, Library/Cheat/CheatManager.cs |
| patch.dfy | `GroundedPatch` | the `PatchIsGrounded` part of Library/Cheat/Patches/Patch.cs |
| fly_cheat.dfy | `Fly` | Library/Cheat/Cheats/FlyCheat.cs |
| mono.dfy | `Mono` | Library/Mono/MonoManager.cs |
| plugins.dfy | `Plugins` | Library/Plugins/PluginManager.cs |

Imperative code keeps its form:

- `MessageManager`, `CheatContract`, `CheatManager`, `FlyCheat`, `MonoManager` and `PluginManager` are classes.
- Their dictionaries and lists are `map` and `seq` fields that the methods reassign.
- Each loop is a `while` loop with invariants, proved against a specification function
  (`AddCommands`, `Registered`, `UpdatePass`, `DisableKeys`, `EnableKeys`, `Appended`, `InOrder`, `Register`).
- Lemmas about those functions state the properties.

The reflection scanner and the parsers are pure functions.

In these places the code's behaviour is easy to misread; the model follows the code:

- Cheat registration is last-write-wins (`Cheats[attribute.Name] = cheatInstance`,
  Library/Cheat/CheatManager.cs:101), not first-wins.
- `Toggle` writes `IsActive` before it calls the hook (Library/Cheat/Abstractions/CheatContract.cs:20-29).
  A throwing `Activate` therefore leaves the cheat active, and a throwing `Deactivate` leaves it inactive.
  The flag is not flipped around the call.
- `CheatManager.Unload` calls `Deactivate` whatever the cheat's state (Library/Cheat/CheatManager.cs:71-74).
- Several faults are not contained, and the model lets each one out:
  - `CheatManager.Update` has no catch, so one throwing cheat ends the pass.
  - In `MessageManager`, the `CreateDelegate` at line 116 sits outside the `try`.
  - `RegisterAllPlugins` has one `try` around its whole loop.
  - `PluginManager.Unload` and `MonoManager`'s registration have no catch.
- A null message, and `!` followed only by white space, make `ProcessMessage` throw
  (Library/Message/MessageManager.cs:58 and :63). The model returns `Threw(NullReference)`
  and `Threw(IndexOutOfRange)` for them.
- The argument of a command is what follows the run of spaces after the verb. The
  two-piece split with `RemoveEmptyEntries` skips the separators that follow the first piece.

## Model

| member | source | states |
|---|---|---|
| Wrappers.SomesEmpty | Library/Message/Commands/QuestCommand.cs:12-17 | at most one value is kept per element, and nothing is kept exactly when no element is present |
| Wrappers.SomesMembers | Library/Utilities/ReflectionsUtility.cs:125 | a value survives the null filter exactly when it was present |
| Wrappers.SomesAppend | Library/Message/Commands/QuestCommand.cs:12-14 | the null filter keeps order: the kept values of two runs are those of the first run followed by those of the second |
| Wrappers.SomesAllPresent | Library/Message/Commands/QuestCommand.cs:13-14 | when every element is present, the filter returns all the values |
| Wrappers.Where | Library/Utilities/ReflectionsUtility.cs:36-37 | the filter returns no more elements than it is given; each kept element comes from the input and passes the test; every input element that passes is kept |
| Wrappers.WhereMembers | Library/Utilities/ReflectionsUtility.cs:103-104 | an element is in the filtered sequence if and only if it is in the input and passes the test |
| Wrappers.WhereAppend | Library/Utilities/ReflectionsUtility.cs:36-37 | the filter keeps order: filtering two runs is filtering each run and concatenating |
| Text.Contains | Library/Utilities/ReflectionsUtility.cs:145 | the substring test holds exactly when the part occurs at some position |
| Text.Trim | Library/Message/MessageManager.cs:60 | the result is the part of the string between a white-space prefix and a white-space suffix; it neither starts nor ends with white space; it is empty exactly when the string is all white space |
| Text.TrimPlaces | Library/Message/MessageManager.cs:60 | the trimmed text sits in the string between a white-space prefix and a white-space suffix |
| Text.TrimEnds | Library/Message/MessageManager.cs:60 | the trimmed text is empty exactly when the string is all white space, and otherwise neither starts nor ends with white space |
| Text.TrimTrimmed | Library/Message/Commands/QuestCommand.cs:12 | trimming a string without white space at either end gives it back, so trimming twice is trimming once |
| Text.Split | Library/Message/Commands/QuestCommand.cs:11 | there is at least one piece; no piece contains the separator; joining the pieces with the separator gives back the string |
| Text.SplitJoin | Library/Message/Commands/QuestCommand.cs:11 | splitting pieces that were joined by a separator they do not contain gives the pieces back |
| Text.SplitAt | Library/Message/Commands/QuestCommand.cs:11 | a piece without the separator, the separator and a tail split into that piece followed by the pieces of the tail |
| Text.SplitAppend | Library/Message/Commands/QuestCommand.cs:11 | splitting two strings joined by the separator gives the pieces of the first followed by the pieces of the second |
| Text.SplitInTwo | Library/Message/MessageManager.cs:61 | the result has at most two pieces, none empty; it has no piece exactly when the string is all separators; the first piece holds no separator; the second piece does not start with one |
| Text.SplitInTwoPlaces | Library/Message/MessageManager.cs:61 | for a string that does not start with the separator, the first piece is the text up to the first separator; only separators lie between the pieces; the second piece is the rest of the string up to its end; with one piece, only separators follow it |
| Text.SeparatorRun | Library/Message/MessageManager.cs:61 | the run of separators skipped after a position stays inside the string, holds only separators, and is followed by a character that is not one |
| Text.SplitInTwoWord | Library/Message/MessageManager.cs:61 | a non-empty word without separators splits to itself |
| Text.SplitInTwoPair | Library/Message/MessageManager.cs:61 | a word, one separator and a remainder that does not start with a separator split back into the word and the remainder |
| Text.Lower | Library/Message/MessageManager.cs:63 | lower-casing keeps the length, leaves no upper-case letter, keeps every character that is not an upper-case letter, and maps each upper-case letter to its lower-case partner |
| Text.LowerIdempotent | Library/Message/MessageManager.cs:18-19 | lower-casing twice is lower-casing once, so a lower-cased name is its own registry key |
| Text.LowerAppend | Library/Message/MessageManager.cs:63 | lower-casing commutes with concatenation |
| Int32.TryParse | Library/Message/Commands/QuestCommand.cs:12 | a successful parse gives a value in the Int32 range, read from a string that holds a decimal digit |
| Int32.ParseSigned | Library/Message/Commands/QuestCommand.cs:12 | the signed digit text parses only to an Int32 value, and only when it ends in a digit |
| Int32.CoreSplit | Library/Message/Commands/QuestCommand.cs:12 | any string is leading white space, the unpadded text, trailing white space and trailing NUL characters, in that order |
| Int32.CoreOf | Library/Message/Commands/QuestCommand.cs:12 | white space, a text that neither starts nor ends with white space nor ends with NUL, white space and NULs unpad to that text |
| Int32.SignedSplit | Library/Message/Commands/QuestCommand.cs:12 | a successful signed parse reads an optional + or - sign followed by one or more digits, and its value is the signed value of the digits |
| Int32.SignedOf | Library/Message/Commands/QuestCommand.cs:12 | a sign and digits parse to their signed value when it is an Int32, and fail otherwise |
| Int32.ParseReads | Library/Message/Commands/QuestCommand.cs:12 | a successful parse reads white space, an optional sign, one or more digits, white space and NULs, and its value is the signed value of the digits |
| Int32.ReadsParse | Library/Message/Commands/QuestCommand.cs:12 | a string of that shape parses to the signed value of its digits when it is an Int32, and fails otherwise |
| Int32.FormatReads | Library/Message/Commands/QuestCommand.cs:12 | the decimal form of a value parses to that value exactly when the value is an Int32 |
| Int32.FormatParse | Library/Message/Commands/QuestCommand.cs:12 | parsing the decimal form of any Int32 value gives the value back |
| Int32.FormatOutOfRange | Library/Message/Commands/QuestCommand.cs:12 | the decimal form of a value outside the Int32 range does not parse |
| QuestCommand.Attempts | Library/Message/Commands/QuestCommand.cs:11-12 | there is one parse attempt per comma-separated piece |
| QuestCommand.AttemptsInRange | Library/Message/Commands/QuestCommand.cs:12 | every attempt that succeeds holds an Int32 |
| QuestCommand.SomesInRange | Library/Message/Commands/QuestCommand.cs:12-15 | every id that is kept is an Int32 |
| QuestCommand.QuestIds | Library/Message/Commands/QuestCommand.cs:11-15 | the ids are at most one per comma-separated piece, and each is an Int32 |
| QuestCommand.QuestIdsPiece | Library/Message/Commands/QuestCommand.cs:11-15 | a piece without commas gives its trimmed parse when that succeeds, and nothing otherwise |
| QuestCommand.QuestIdsAppend | Library/Message/Commands/QuestCommand.cs:11-15 | the ids of two lists joined by a comma are the ids of the first list followed by those of the second |
| QuestCommand.QuestCommandProcess | Library/Message/Commands/QuestCommand.cs:9-24 | the command reports an invalid id exactly when no piece parses; otherwise ShowQuests receives the QuestIds list as both arguments, holding between one id and one id per piece, each an Int32 |
| QuestCommand.EmptyArgument | Library/Message/Commands/QuestCommand.cs:11-21 | an empty argument is reported as an invalid id |
| QuestCommand.QuestRoundTrip | Library/Message/Commands/QuestCommand.cs:11-23 | a comma-separated list of Int32 ids is read back as that list, in the same order, and shown |
| Reflection.IsBlacklistedAssembly | Library/Utilities/ReflectionsUtility.cs:138-149 | an assembly is blacklisted if and only if its name starts with System, Microsoft, mscorlib or netstandard, or contains Unity or Mono, or the assembly is in the global assembly cache |
| Reflection.SafeGetTypes | Library/Utilities/ReflectionsUtility.cs:116-133 | never fails: a full load gives every type; a partial load gives exactly the types that loaded; any other failure gives nothing |
| Reflection.AllMethods | Library/Utilities/ReflectionsUtility.cs:90-93 | a method is listed if and only if one of the types declares it |
| Reflection.GetMethodsWithAttribute | Library/Utilities/ReflectionsUtility.cs:82-95 | a blacklisted assembly gives nothing; otherwise a method is returned if and only if it carries the tag and belongs to a type the assembly yields |
| Reflection.GetTypesWithAttribute | Library/Utilities/ReflectionsUtility.cs:100-105 | a type is returned if and only if the assembly yields it and it carries the tag; no blacklist applies |
| Reflection.GetTypesWithAttributes | Library/Utilities/ReflectionsUtility.cs:107-114 | a type is returned if and only if the assembly yields it and it carries both tags |
| Reflection.GetAssembliesWithMethodsWithAttribute | Library/Utilities/ReflectionsUtility.cs:32-44 | an assembly is kept if and only if it is in the input and GetMethodsWithAttribute finds something on it; no blacklisted assembly is kept |
| Reflection.MethodsFound | Library/Utilities/ReflectionsUtility.cs:36-43 | the assembly filter's test agrees with GetMethodsWithAttribute being non-empty |
| Reflection.GetAssembliesWithClassesWithAttribute | Library/Utilities/ReflectionsUtility.cs:50-59 | an assembly is kept if and only if it is in the input, is not blacklisted and has a tagged type |
| Reflection.GetAssembliesWithClassesWithAttributes | Library/Utilities/ReflectionsUtility.cs:65-76 | an assembly is kept if and only if it is in the input, is not blacklisted and has one type that carries both tags |
| Reflection.AssemblyScansKeepOrder | Library/Utilities/ReflectionsUtility.cs:36-75 | each of the three assembly filters keeps the input order: scanning two runs is scanning each run and concatenating |
| Reflection.BothTagsOnOneType | Library/Utilities/ReflectionsUtility.cs:73-75 | an assembly none of whose types carries both tags is not kept by the two-tag scan, whatever its other types carry |
| Reflection.EachTagOnSomeType | Library/Utilities/ReflectionsUtility.cs:54-58 | an assembly that is not blacklisted and has a type with the tag is kept by the one-tag scan |
| Reflection.SplitTagsScans | Library/Utilities/ReflectionsUtility.cs:50-76 | an assembly with one type tagged Cheat and another tagged MenuItem is kept by each one-tag scan and dropped by the two-tag scan |
| Reflection.NotListed | Library/Utilities/ReflectionsUtility.cs:138-149 | an assembly named Quest.Extras outside the cache is not blacklisted |
| Reflection.TypeScanIgnoresBlacklist | Library/Utilities/ReflectionsUtility.cs:100-105 | a System assembly still yields its tagged types, while its methods are never scanned |
| Messages.ParseMessage | Library/Message/MessageManager.cs:50-64 | a null line throws; a line that is not blank and starts with neither ! nor / is ordinary chat; a blank line, a line starting with /, and a bare ! are swallowed; ! followed only by white space throws an index fault; any other ! line dispatches the lower-cased first word and the rest after the following spaces |
| Messages.ParseCommand | Library/Message/MessageManager.cs:60-64 | trimmed command text fails exactly when it is empty; otherwise it dispatches a verb and an argument that sit in the text as described |
| Messages.CommandPlaces | Library/Message/MessageManager.cs:60-64 | a trimmed non-blank command text splits into at least one piece, and the lower-cased first piece and the rest sit in the text as VerbAndArgument describes |
| Messages.ParseFormat | Library/Message/MessageManager.cs:60-64 | parsing !word argument gives back the lower-cased word and the argument |
| Messages.VerbCaseInsensitive | Library/Message/MessageManager.cs:63-66 | two spellings of a verb that lower-case alike parse to the same dispatch |
| Messages.NonCommandExamples | Library/Message/MessageManager.cs:52-58 | hello is ordinary chat; the empty line, /fly and ! are swallowed; null throws |
| Messages.BlankCommandExample | Library/Message/MessageManager.cs:60-63 | a ! followed by two spaces throws the index fault |
| Messages.FlyExample | Library/Message/MessageManager.cs:60-64 | !fly dispatches the verb fly with an empty argument |
| Messages.UpperFlyExample | Library/Message/MessageManager.cs:60-64 | !FLY dispatches the same lower-case verb fly with an empty argument |
| Messages.JumpHeightExample | Library/Message/MessageManager.cs:60-64 | !jumpheight 2.5 gives the verb jumpheight with the argument 2.5 |
| Messages.Called | Library/Message/MessageManager.cs:66-70 | at most one handler is called; one is called exactly when the line dispatches a registered verb; it is the handler filed under the lower-cased verb, and it receives the parsed argument |
| Messages.RegisteredVerbDispatches | Library/Message/MessageManager.cs:63-70 | any spelling of a registered name calls that name's handler once, with the argument |
| Messages.FirstUnbindable | Library/Message/MessageManager.cs:111-116 | the registration loop gets as far as the first tagged method that cannot be bound, and that method cannot be bound |
| Messages.AddCommands | Library/Message/MessageManager.cs:108-129 | registration keeps every existing entry unchanged, and each new key is the lower-cased name of some tagged method |
| Messages.AddCommandsKeeps | Library/Message/MessageManager.cs:118-122 | registration replaces no entry; the keys become the old keys plus the lower-cased names of the tagged methods |
| Messages.AddCommandsFirst | Library/Message/MessageManager.cs:118-122 | a new name ends up holding the first method that names it |
| Messages.AddCommandsPresent | Library/Message/MessageManager.cs:118 | registering methods whose names are all present changes nothing |
| Messages.AddCommandsIdempotent | Library/Message/MessageManager.cs:108-129 | registering the same methods twice is registering them once |
| Messages.AddCommandsFiled | Library/Message/MessageManager.cs:18-19 | registration keeps every entry filed under the lower-cased form of its name |
| Messages.MessageManager.constructor | Library/Message/MessageManager.cs:18-19 | the registry starts empty |
| Messages.MessageManager.ProcessMessage | Library/Message/MessageManager.cs:50-85 | returns true exactly for ordinary chat; throws exactly when parsing throws; otherwise returns false, including when the handler throws; the registry is unchanged, and the handler calls are those Called gives |
| Messages.MessageManager.Remove | Library/Message/MessageManager.cs:93-99 | the entry the name matches without regard to case is dropped if present; nothing else changes |
| Messages.MessageManager.RegisterCommandsFromAssembly | Library/Message/MessageManager.cs:108-130 | the registry gains the first-wins additions of the methods before the first unbindable one, and the call throws at that one if it exists; entries stay filed by lower-cased name |
| Cheats.TogglesAlternate | Library/Cheat/Abstractions/CheatContract.cs:18-30 | after n toggles the flag is flipped exactly when n is odd; there is one hook call per toggle, and the calls alternate between Activate and Deactivate |
| Cheats.ToggleTwice | Library/Cheat/Abstractions/CheatContract.cs:18-30 | two toggles restore the flag, with one Activate and one Deactivate call in the order the starting state dictates |
| Cheats.CheatContract.constructor | Library/Cheat/Abstractions/CheatContract.cs:11 | a new cheat is inactive and no hook has been called |
| Cheats.CheatContract.Toggle | Library/Cheat/Abstractions/CheatContract.cs:18-30 | the flag flips; exactly one hook call is made, Deactivate when active and Activate with the arguments when inactive; a throwing hook leaves the new flag |
| Cheats.CheatContract.Update | Library/Cheat/Abstractions/CheatContract.cs:36-42 | OnUpdate is called exactly when active, and the flag never changes |
| Cheats.CheatContract.Deactivate | Library/Cheat/CheatManager.cs:73 | a direct Deactivate call is recorded and leaves the flag unchanged |
| Cheats.RegisteredNames | Library/Cheat/CheatManager.cs:86-101 | a name is registered if and only if some type with that name has a non-null attribute name and yields a CheatContract instance |
| Cheats.Registered | Library/Cheat/CheatManager.cs:86-101 | registration files at most one name per type |
| Cheats.RegisteredLastWins | Library/Cheat/CheatManager.cs:101 | a name holds the instance of the last type that registers it |
| Cheats.UpdatePass | Library/Cheat/CheatManager.cs:45-49 | a pass updates only active cheats, taken from the dictionary order, and at most one per entry |
| Cheats.FirstFault | Library/Cheat/CheatManager.cs:47-48 | gives the position of the first active cheat whose OnUpdate throws, or the end of the order |
| Cheats.UpdatePassActive | Library/Cheat/CheatManager.cs:45-49 | a pass updates the active cheats in order, up to and including the first that throws; without a fault, every active cheat is updated |
| Cheats.CheatManager.constructor | Library/Cheat/CheatManager.cs:21 | the registry starts empty |
| Cheats.CheatManager.ToggleCheat | Library/Cheat/CheatManager.cs:57-63 | an unknown name does nothing; a known name toggles that cheat alone; every other cheat keeps its flag and its hook record |
| Cheats.CheatManager.Unload | Library/Cheat/CheatManager.cs:69-75 | an unknown name does nothing; a known cheat gets one Deactivate call whatever its state; unless that call throws, exactly that key is removed; other entries are unchanged |
| Cheats.CheatManager.RegisterCheatsFromAssembly | Library/Cheat/CheatManager.cs:83-109 | each registered name gets a new inactive instance of the last type naming it; the types that are skipped or throw change nothing; other entries are kept |
| Cheats.CheatManager.UpdateOne | Library/Cheat/CheatManager.cs:47-48 | one cheat's Update: its hook record gains an OnUpdate call exactly when it is active; no flag and no other record changes; it throws exactly when it is active and its OnUpdate throws |
| Cheats.CheatManager.Update | Library/Cheat/CheatManager.cs:45-49 | walking the dictionary order, each active cheat up to and including the first faulty one gets one OnUpdate call and no other cheat gets one; no flag changes; the pass throws exactly when an active cheat's OnUpdate throws |
| Cheats.PassBumps | Library/Cheat/CheatManager.cs:45-49 | the hook records after a pass are those the UpdatePass list gives: one OnUpdate call more for each cheat it names |
| Cheats.PassMembers | Library/Cheat/CheatManager.cs:45-49 | a name is in the UpdatePass list exactly when it is active and comes before the end of the pass |
| Cheats.BumpStep | Library/Cheat/CheatManager.cs:46-48 | one more step of the pass adds an OnUpdate call to the record of that cheat alone, and only if it is active |
| GroundedPatch.Postfix | Library/Cheat/Patches/Patch.cs:25-31 | while flying the result is true; otherwise the result is left as the game computed it |
| GroundedPatch.PostfixMonotoneIdempotent | Library/Cheat/Patches/Patch.cs:25-31 | the postfix never turns true into false, and applying it twice is applying it once |
| GroundedPatch.PatchIsGrounded.constructor | Library/Cheat/Patches/Patch.cs:16 | IsFlying starts false |
| GroundedPatch.PatchIsGrounded.IsGrounded | Library/Cheat/Patches/Patch.cs:25-31 | the patched result is the postfix of the current flag and the game's result |
| Fly.Keybind.Copy | Library/Cheat/Cheats/FlyCheat.cs:46 | a copied binding holds the same key code |
| Fly.KeyCodes | Library/Cheat/Cheats/FlyCheat.cs:17 | the key codes cover exactly the actions of the binding map |
| Fly.DisableKeys | Library/Cheat/Cheats/FlyCheat.cs:104-116 | disabling keeps the set of bound actions |
| Fly.EnableKeys | Library/Cheat/Cheats/FlyCheat.cs:79-94 | enabling keeps the set of bound actions |
| Fly.Clone | Library/Cheat/Cheats/FlyCheat.cs:45-46 | the copy has the same actions, a new and distinct binding object per action, and the same key codes |
| Fly.DisableZeroes | Library/Cheat/Cheats/FlyCheat.cs:104-116 | disabling completes if and only if every action is bound; it then sets exactly those actions to 0 and keeps every other binding |
| Fly.EnableRestores | Library/Cheat/Cheats/FlyCheat.cs:79-94 | with every action bound, enabling completes; each action the snapshot has gets the snapshot's code; nothing else changes |
| Fly.EnableCompletes | Library/Cheat/Cheats/FlyCheat.cs:79-94 | enabling completes if and only if every action the snapshot has is bound in the settings |
| Fly.DisableThenEnable | Library/Cheat/Cheats/FlyCheat.cs:36-116 | disabling and then enabling puts the construction-time snapshot back on the five movement actions, whatever they held at activation; other bindings are untouched |
| Fly.FlyCheat.constructor | Library/Cheat/Cheats/FlyCheat.cs:34-37 | construction replaces the shared snapshot with new bindings holding the live key codes; the cheat starts inactive |
| Fly.FlyCheat.DisableUserKeys | Library/Cheat/Cheats/FlyCheat.cs:104-120 | the live key codes become DisableKeys of the old ones; the snapshot is untouched; the settings are saved once when every write succeeded |
| Fly.FlyCheat.EnableUserKeys | Library/Cheat/Cheats/FlyCheat.cs:79-98 | the live key codes become EnableKeys of the old ones and the snapshot; the snapshot is untouched; the settings are saved once when every write succeeded |
| Fly.FlyCheat.Activate | Library/Cheat/Cheats/FlyCheat.cs:53-59 | the movement keys are disabled, and IsFlying is true afterwards unless disabling threw |
| Fly.FlyCheat.Deactivate | Library/Cheat/Cheats/FlyCheat.cs:65-71 | the movement keys are restored from the snapshot, and IsFlying is false afterwards unless restoring threw |
| Fly.FlyCheat.Toggle | Library/Cheat/Abstractions/CheatContract.cs:18-30 | the flag flips first; then Activate runs from inactive and Deactivate from active, with their effects on the keys and IsFlying |
| Fly.FlyCheat.Update | Library/Cheat/Cheats/FlyCheat.cs:126-134 | the player moves exactly when the cheat is active, IsFlying is up and there is a player entity |
| Mono.DelegateFor | Library/Mono/MonoManager.cs:93-112 | a bound delegate wraps the method and requires it to bind; there is no delegate exactly for an instance method without a declaring type or with a null instance; a static method binds exactly when its signature fits |
| Mono.FirstThrow | Library/Mono/MonoManager.cs:74-81 | the registration loop gets as far as the first method whose delegate creation throws, and that method's creation throws |
| Mono.Appended | Library/Mono/MonoManager.cs:74-81 | only methods with a bound delegate are appended |
| Mono.AppendedCons | Library/Mono/MonoManager.cs:74-81 | a method whose delegate creation does not throw adds itself to the front of the callbacks exactly when it binds |
| Mono.AppendedConcat | Library/Mono/MonoManager.cs:74-81 | registration keeps discovery order and does not de-duplicate: registering two runs appends the callbacks of each run in turn |
| Mono.NullNeverAppended | Library/Mono/MonoManager.cs:80 | a method without a usable delegate is never appended, once or twice |
| Mono.InOrder | Library/Mono/MonoManager.cs:48-57 | the logged failures are exactly the faulting positions of the pass, in increasing order |
| Mono.MonoManager.constructor | Library/Mono/MonoManager.cs:21 | the callback list starts empty |
| Mono.MonoManager.SubscribeUpdate | Library/Mono/MonoManager.cs:46-59 | every callback runs exactly once, in list order; each one that throws is caught and logged, and the pass goes on; the list is unchanged |
| Mono.MonoManager.RegisterMonoUpdatesFromAssembly | Library/Mono/MonoManager.cs:70-82 | the list gains exactly the Appended callbacks, after the old ones; the call throws at the first method whose delegate creation throws |
| Plugins.Register | Library/Plugins/PluginManager.cs:53-74 | a pass completes if and only if no file throws |
| Plugins.RegisterConcat | Library/Plugins/PluginManager.cs:55-73 | a pass over two runs of files is a pass over the first run, followed, if it completed, by a pass over the second |
| Plugins.FaultAbortsRest | Library/Plugins/PluginManager.cs:55-73 | once a file throws, the files after it contribute nothing, and the pass reports that it did not complete |
| Plugins.NoPluginTypeSkipped | Library/Plugins/PluginManager.cs:61-62 | a file without a QPlugin subclass changes nothing |
| Plugins.RegisterAppends | Library/Plugins/PluginManager.cs:57-67 | a pass only appends, at most one plugin per file; the new plugins are new objects created in file order |
| Plugins.RegisterLoadsFirst | Library/Plugins/PluginManager.cs:64-67 | every plugin a pass appends had Load called directly before, and its PluginLoaded event fires directly after |
| Plugins.FirstNamed | Library/Plugins/PluginManager.cs:83 | gives the position of the first plugin with the name, or the end of the list when none has it |
| Plugins.RemoveAt | Library/Plugins/PluginManager.cs:87 | removal drops exactly one entry and keeps the relative order of the others |
| Plugins.UnloadRemovesFirstNamed | Library/Plugins/PluginManager.cs:83-87 | no position is found exactly when no plugin has the name; otherwise exactly the first plugin with the name leaves the list, and every other plugin stays |
| Plugins.RegisterThenUnload | Library/Plugins/PluginManager.cs:57-87 | registering a plugin whose name is new and then unloading that name gives back the list as it was |
| Plugins.PluginManager.constructor | Library/Plugins/PluginManager.cs:23 | the plugin list starts empty |
| Plugins.PluginManager.RegisterAllPlugins | Library/Plugins/PluginManager.cs:53-74 | the new list, trace and completion flag are those of a Register pass over the files, and the object invariant is kept |
| Plugins.PluginManager.Unload | Library/Plugins/PluginManager.cs:81-89 | an unknown name changes nothing; otherwise the first plugin with the name gets one Unload call; if that call returns, exactly that plugin is removed and PluginUnloaded fires; if it throws, the plugin stays |

## Left out

- Logging (`Debug.Log*`), the chat output of `Chat.AddText`, and the UI that listens to
  `PluginLoaded` and `PluginUnloaded` are not modelled. These are output only; exceptions
  thrown by event subscribers are not modelled either.
- `RegisterAllCommands`, `RegisterAllCheats`, `RegisterAllMonoUpdates` and the file listing of
  `RegisterAllPlugins` are not modelled. They enumerate the assemblies of the running AppDomain or the
  files of a directory. The model starts from the sequence they would produce:
  - the per-assembly registration methods take the methods or types one assembly yields;
  - `RegisterAllPlugins` takes the DLL files in listing order.
- The work of handlers, hooks, plugin `Load`/`Unload` and update callbacks is foreign
  code. Each call is recorded, and whether it throws is a parameter.
- Messages.MessageManager.RegisterCommandsFromAssembly does not model a `CommandAttribute` whose `CommandName`
  is null. That null reaches `Commands.ContainsKey` and throws `ArgumentNullException`, which the model does not cover.
- Messages.MessageManager.Remove does not model a null name, which makes `Commands.ContainsKey` throw.
- Cheats.CheatManager.ToggleCheat and Cheats.CheatManager.Unload do not model a null name, which makes `TryGetValue` throw.
- Text.StartsWith and the other string tests compare ordinally, and case mapping is the
  invariant one. The source's `StartsWith(string)` (Library/Message/MessageManager.cs:52 and :58,
  Library/Utilities/ReflectionsUtility.cs:142) is culture-sensitive and skips ignorable code points,
  and `ToLower()` (Library/Message/MessageManager.cs:63) follows the current culture. For the line
  `"\u00AD!"` (a soft hyphen, then `!`) the source sees a command, while the model sees ordinary chat.
- Fly.FlyCheat.constructor requires the binding map to hold a distinct `Keybind` object per
  action, as the game's key settings do; a map that shares one object between two actions is not modelled.
- Text.Lower folds only the ASCII letters. `InvariantCultureIgnoreCase` and `ToLower()` fold every
  cased Unicode letter. Command names are expected to be ASCII.
- Int32.TryParse assumes a culture whose signs are `+` and `-`. It does not model the
  thousands separators, currency symbols or parentheses that `NumberStyles.Integer` does not allow anyway.
- Cheats.CheatManager.Update takes the order in which the dictionary yields its values as a parameter:
  a sequence that lists each registered name once. The contract holds for every such order.
- Plugins.PluginManager.RegisterAllPlugins does not model a throwing `PluginLoaded` subscriber. Such an
  exception would end the pass after the plugin was added; the UI subscriber does not throw.
- Fly.FlyCheat.Update states only whether the player moves, not the movement vector. The vector is
  floating-point arithmetic on game transforms.
- Fly.FlyCheat.DisableUserKeys records the save of the key settings and the notification of the
  input manager as one saved snapshot of the key codes. The game's persistence is not modelled.
- The static `Keybinds` snapshot and the static `IsFlying` flag are objects (`Fly.Snapshot`,
  `GroundedPatch.PatchIsGrounded`) passed to the cheat, rather than global state.
- Thread-safety of the `ManagerContract` singleton is left out. The model is sequential.
- `JumpHeightPatch` and the other patches are floating-point or constant game patches and are left out.
