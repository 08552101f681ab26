# swu update engine: a Dafny model

This project models the core of the `swu` software-update engine (C++/Qt).
The engine reads an XML update description and runs it in four stages:

1. A SAX handler feeds every start and end tag through a fixed transition
   table, the state machine. It collects the opened elements in document
   order, with their attributes, their text and a link to the enclosing
   element.
2. Each element is converted to a typed element. Its attribute spellings
   become attribute keys, and its attribute values become `Remote`/`Target`
   values.
3. A recursive-descent parser walks the typed elements and builds several
   parts:
   - the platform and product header
   - the resource URIs and the backup path
   - three operation lists: validate (expect), backup (copy) and update
     (copy or remove)
   - a fault report, which is the parse stack when parsing stops
4. The updater first checks the platform and initialises and configures
   through its delegate. It then runs the three lists in order. Each
   operation is gated by a delegate precondition, and one stack pointer per
   list records how far the run got. Undo walks back over what was executed.

The legacy front end is modelled as well. It is the older `<swupdate>`
state machine, its token and its XML handler, which store attributes in a
key-indexed map instead of a name-ordered one.

## Modules

| file | module | models |
|---|---|---|
| common.dfy | `Common` | `Option`; Qt's string order; `QMap<QString, QString>` as a key-sorted association list |
| attributes.dfy | `Attributes` | attribute keys and values, and their spellings |
| cfg_machine.dfy | `ConfigMachine` | the configuration state machine: lexemes, table, `input`, `status`, `reset` |
| elements.dfy | `Elements` | `Element`: value, ordered attribute map, duplicate detection, description |
| cfg_element.dfy | `ConfigElements` | `CFGElement`: the typed attribute index |
| cfg_handler.dfy | `ConfigHandler` | `ConfigXMLHandler`: the element stack and the scope stack |
| resources.dfy | `Resources` | `Resource` and `ResourceManager` |
| fs_operations.dfy | `FsOperations` | remove, copy and expect operations |
| paths.dfy | `Paths` | the parser's path helpers `dropRootPrefix` and `dropNameAndRootPrefix` |
| cfg_parser.dfy | `ConfigParser` | `Parser`: every `accept*` function, the parse stack, `fault()` |
| cfg_updater.dfy | `Updater` | `Updater::execute`, `Updater::undo` and the delegate protocol |
| legacy_machine.dfy | `LegacyMachine` | the `<swupdate>` state machine |
| legacy_token.dfy | `LegacyTokens` | the legacy `Token` and its key-indexed attributes |
| legacy_handler.dfy | `LegacyHandler` | the legacy `XMLHandler` |

### Modelling choices

- **Tokens and transitions.** These are natural numbers (their enum
  ordinals), because the handlers use "even ordinal means opening tag".
- **Transition tables.** Each table is modelled as the source builds it:
  - The static table starts zero-filled, except for the one cell the
    initializer sets to `FaultState`.
  - `init_states` then overwrites the listed cells.
  - So an unlisted (state, token) pair leads back to state 0, and no
    transition ever reaches `FaultState`. The only way `input` reports a
    fault is an unknown lexeme.
- **XML events.** The XML tokenizer is abstract. A document is a sequence of
  `StartTag(name, attributes)`, `EndTag(name)` and `Text(chars)` events, and
  `QXmlAttributes` is a list of (name, value) pairs.
- **Undefined behaviour** is a value of its own, `Undefined`, and is never
  given a meaning. This covers:
  - a scope-stack pop on an empty stack in the handlers
  - `acceptCopy` reading `elements.front()` of an empty queue
- **Parameters.** The kernel type, `QDir::rootPath()` and
  `QDir(root).filePath(path)` become parameters.
- **Oracles.** The delegate callbacks and the result of each operation's
  `execute()` and `undo()` are oracle functions.
- **Reference scan.** The parser's recursive descent is checked against
  `ConfigParser.Scan`, one flat pass over the element queue. The pass adds
  each element's contribution, judged by its token and by the innermost
  section element before it, and ignores nesting and errors. On success the
  parser's output is exactly this pass's output (`ConfigParser.ParseScans`).
- **Legacy status and final state.** The legacy machine has no ready status:
  a fresh machine reports `STATUS_OK`. Its final state is 15, and the table
  lists no transition out of it, so every input from there goes to 0.
- **Legacy copy body.** Inside the legacy `<copy>`, the code accepts zero or
  more `<directory>`/`<file>` … `<to-directory>` pairs before `</copy>`. So
  `<copy></copy>` is accepted (`LegacyMachine.EmptyCopyAccepted`), although
  one might expect at least one pair.
- **Repeated legacy attribute.** When an attribute name appears twice, the
  legacy token stores the value of the first occurrence for that name.
  `QXmlAttributes::value(qName)` returns the first match, and `setAttributes`
  looks each value up by name (`LegacyTokens.RepeatedKeyKeepsFirstValue`).
- **Typed element conversion.** Converting an `Element` to a `CFGElement`
  keeps only its token and parent. The base constructor receives nothing
  else, so the converted element's value is the empty string and it is not
  ready. Every path the parser reads from an element is therefore empty
  (`ConfigElements.Convert`).
- **Duplicate push in `acceptConfiguration`.** Before dispatching,
  `acceptConfiguration` pushes each section token. Sections that fail push
  their token again, so a failing `<backup>` leaves it on the parse stack
  twice (`ConfigParser.BackupWithoutPath`).
- **`dropRootPrefix("")`.** `QString::at(0)` on an empty string is read as
  "no leading slash".
- **`dropNameAndRootPrefix` guard.** Its guard `i < list.length() - 1`
  always holds inside the loop. So every directory part, the first included,
  is followed by `/`, and the result ends in `/` (`Paths.DropNameSpec`).

## Model

| member | source | states |
|---|---|---|
| Attributes.KeyMapPrefix | attributes.cpp:47-59 | after the constructor's key loop has seen the first n spellings, the string-to-key map holds exactly those spellings, each mapped to its own key |
| Attributes.ValueMapPrefix | attributes.cpp:47-59 | the same for the value loop: exactly the first n value spellings, each mapped to its value |
| Attributes.Key | attributes.cpp:61-68 | a string names a real key exactly when it is one of the key spellings, and that key's spelling is the string; any other string gives the sentinel |
| Attributes.Value | attributes.cpp:70-77 | only "Remote" gives Remote, only "Target" gives Target, and every other string gives the sentinel |
| Attributes.KeyToStr | attributes.cpp:79-86 | the sentinel key has no spelling, and every other key has one of the table spellings |
| Attributes.ValueToStr | attributes.cpp:88-95 | the sentinel value has no spelling, and every other value has one of the table spellings |
| Attributes.KeyRoundTrip | attributes.cpp:61-86 | looking up the spelling of any real key gives the key back |
| Attributes.ValueRoundTrip | attributes.cpp:70-95 | looking up the spelling of any real value gives the value back |
| Attributes.KeySpellingRoundTrip | attributes.cpp:61-86 | every key spelling is the spelling of the key it names |
| ConfigMachine.AssignedIsInitStates | cfgstatemachine.cpp:54-113 | the decoded transition function agrees with the init_states assignment list in both directions: each listed cell holds its assigned state, and each assignment is listed |
| ConfigMachine.NextIsTable | cfgstatemachine.cpp:18-113 | a transition goes where init_states assigns it; a pair init_states does not list goes to state 0, the zero the static table starts with |
| ConfigMachine.NextNeverFaults | cfgstatemachine.cpp:18-113 | no transition leads to FaultState, because init_states overwrites the only initialised cell |
| ConfigMachine.StatusOf | cfgstatemachine.cpp:134-141 | status is Complete exactly in FinalState and Fault exactly in FaultState |
| ConfigMachine.Reset | cfgstatemachine.cpp:143-146 | reset returns to StartState, whose status is Ready |
| ConfigMachine.InputToken | cfgstatemachine.cpp:115-119 | input reports the status of the state it moved to, and that status is never Fault |
| ConfigMachine.InputTokenListed | cfgstatemachine.cpp:115-119 | a token moves the machine off StartState exactly when init_states lists the pair; every other token drops back to StartState |
| ConfigMachine.LexemeParts | cfgstatemachine.cpp:21-33 | opening tokens (even ordinals) are spelled `<tag>` and closing ones (odd ordinals) `</tag>`, with tag the element name |
| ConfigMachine.LexemeInjective | cfgstatemachine.cpp:21-33 | no two tokens share a lexeme |
| ConfigMachine.LexemesDistinct | cfgstatemachine.cpp:43-52 | the lexeme list that the constructor loads into its hash map has no repeats, so the map is one-to-one |
| ConfigMachine.TokenOf | cfgstatemachine.cpp:121-132 | the lexeme lookup finds a token exactly when some token has that lexeme, and then returns that token |
| ConfigMachine.TokenOfIsMapLookup | cfgstatemachine.cpp:43-52 | the lookup agrees with the lexeme-to-token hash map that the constructor builds |
| ConfigMachine.InputLexeme | cfgstatemachine.cpp:121-132 | an unknown lexeme reports Fault and leaves the state as it was; a known one behaves as input of its token and hands that token back |
| ConfigMachine.KnownLexemeNeverFaults | cfgstatemachine.cpp:121-132 | the lexeme of any token is recognised and never reports Fault |
| ConfigMachine.RunAppend | cfgstatemachine.cpp:115-119 | feeding two token sequences one after the other is the same as feeding their concatenation |
| ConfigMachine.RunNeverFaults | cfgstatemachine.cpp:18-113 | no token sequence leads from a non-fault state to FaultState |
| ConfigMachine.ReachableStates | cfgstatemachine.cpp:54-113 | a state is reachable from StartState exactly when it is not FaultState |
| ConfigMachine.EmptyConfigurationCompletes | cfgstatemachine.cpp:57-64 | `<configuration></configuration>` ends in FinalState with status Complete |
| ConfigMachine.ListedDepth | cfgstatemachine.cpp:54-113 | every transition in init_states goes one nesting level deeper for an opening tag and one level out for a closing tag |
| ConfigMachine.CloseReturnsToEnclosing | cfgstatemachine.cpp:54-113 | outside the copy body, the closing tag of an element returns to the state its opening tag left |
| ConfigMachine.CopyBodyForced | cfgstatemachine.cpp:92-109 | the only way to stay inside a `<copy>` until it returns to the operations state is exactly the rest of `<from></from><to></to></copy>` |
| ConfigMachine.CopyBodyAccepted | cfgstatemachine.cpp:92-109 | `<from></from><to></to></copy>` after `<copy>` returns to the operations state |
| Elements.NewElement | element.cpp:8-14 | a new element carries the given token and parent, has an empty value, is not ready and has no attributes |
| Elements.SetValue | element.cpp:16-20 | setValue stores the text and marks the element ready, leaving token, parent and attributes alone |
| Elements.FirstCollision | element.cpp:27-40 | the index of the first attribute whose name is already present, either in the element or earlier in the list; no attribute before it collides |
| Elements.SetAttributes | element.cpp:27-40 | setAttributes changes only the attribute map |
| Elements.SetAttributesSpec | element.cpp:27-40 | with j the first collision: the names before j are added with their own values; the name at j is returned (or null when there is none); every other name keeps its old value |
| Elements.SetAttributesNoClash | element.cpp:27-40 | fresh distinct names are all inserted with their values, and the call returns null |
| Elements.SetAttributesFromSorted | element.cpp:27-40 | the attribute map stays ordered by name, as a QMap is |
| Elements.SetAttributesAgain | cfgxmlhandler.cpp:85-89 | the handler's second call to fetch the duplicate name changes nothing and returns the first attribute's name |
| Elements.Description | element.cpp:62-70 | read back in order, the description is the lexeme, the attribute text, " { ", the value, " } " and the lexeme again |
| Elements.AttributeTextItem | element.cpp:64-67 | the attribute text holds one " [key:value]" item per attribute, each after the items of the attributes before it in key order |
| Elements.DescriptionOneAttribute | element.cpp:62-70 | for a single attribute the description is `<lexeme> [k:v] { value } <lexeme>` |
| Elements.AttributeTextAppend | element.cpp:64-67 | the attribute part of the description lists the attributes in map order, so it distributes over concatenation |
| ConfigElements.FirstUnknownKey | cfgelement.cpp:20-29 | the position of the first raw attribute (in name order) whose name is not a key spelling; every attribute before it is known |
| ConfigElements.Convert | cfgelement.cpp:5-14 | conversion keeps the token and parent; the value is empty and not ready, because the base is built from token and parent alone |
| ConfigElements.AttributeIndex | cfgelement.cpp:43-46 | attribute_index finds a pair exactly when the key's slot was filled, and returns that slot |
| ConfigElements.IndexFromDomain | cfgelement.cpp:20-40 | the conversion loop fills exactly the slots of the keys met before it stops at an unknown name |
| ConfigElements.IndexFromValues | cfgelement.cpp:32-39 | each filled slot holds the key, its typed value and the raw value string; slots filled earlier are kept |
| ConfigElements.ConvertSlotSet | cfgelement.cpp:11-40 | a key's slot is set exactly when a raw attribute before the first unknown name has that key; all other slots stay unset |
| ConfigElements.ConvertSlotValue | cfgelement.cpp:32-39 | the slot of such an attribute holds (key, typed value, raw value) |
| ConfigElements.ConvertSpelling | cfgelement.cpp:20-40 | the attribute spelled like a key fills its slot exactly when it lies before the first unknown name |
| ConfigElements.ConvertStopsAtUnknownKey | cfgelement.cpp:26-29 | an unknown name hides every later name: with "other" and "path", the path slot stays unset |
| ConfigHandler.NewChild | cfgxmlhandler.cpp:76-83 | a new element's parent is the top of the scope stack (none at top level); it has no value and is not ready |
| ConfigHandler.StartElement | cfgxmlhandler.cpp:56-101 | startElement always has a defined outcome |
| ConfigHandler.StartElementUnknown | cfgxmlhandler.cpp:66-69 | an unknown opening tag is refused and the handler is unchanged |
| ConfigHandler.StartElementOpens | cfgxmlhandler.cpp:73-96 | a known opening tag steps the machine and appends one element, whose parent is the previous scope top; that element becomes the new scope top |
| ConfigHandler.EndElementCloses | cfgxmlhandler.cpp:103-121 | a known closing tag steps the machine and pops the scope stack, keeping the elements; with an empty scope stack the pop is undefined |
| ConfigHandler.EndElementUnknown | cfgxmlhandler.cpp:108-113 | an unknown closing tag is refused and the handler is unchanged |
| ConfigHandler.Characters | cfgxmlhandler.cpp:123-144 | characters touches at most the last element, and never the machine or the stacks |
| ConfigHandler.CharactersFillsLast | cfgxmlhandler.cpp:123-144 | text goes to the last element only while it is not ready; afterwards it is ignored |
| ConfigHandler.EndDocument | cfgxmlhandler.cpp:19-54 | the document counts as parsed exactly when the machine is Complete and no scope is open; otherwise nothing changes |
| ConfigHandler.FreshValid | cfgxmlhandler.cpp:6-11 | a fresh handler satisfies the tree-shape invariant |
| ConfigHandler.StartElementValid | cfgxmlhandler.cpp:73-96 | opening keeps the shape: every parent comes earlier in the element stack, and the scope stack is the chain of open ancestors |
| ConfigHandler.EndElementValid | cfgxmlhandler.cpp:103-121 | closing keeps the tree-shape invariant |
| ConfigHandler.CharactersValid | cfgxmlhandler.cpp:123-144 | text keeps the tree-shape invariant |
| ConfigHandler.FeedValid | cfgxmlhandler.cpp:56-144 | any defined run of events keeps the tree-shape invariant |
| ConfigHandler.FeedPreorder | cfgxmlhandler.cpp:73-96 | after a run with no refusal, the element stack holds one element per accepted opening tag, in document order |
| ConfigHandler.FeedScopeDepth | cfgxmlhandler.cpp:56-121 | after a run with no refusal, the scope depth changes by the openings minus the closings |
| ConfigHandler.WellNestedDefined | cfgxmlhandler.cpp:103-121 | if no prefix of the events closes more scopes than are open, the unchecked pop never runs on an empty stack |
| ConfigHandler.HandleKeepsDepth | cfgxmlhandler.cpp:56-121 | while every tag follows the table, the machine's nesting depth equals the scope depth |
| ConfigHandler.CompleteMeansEmptyScope | cfgxmlhandler.cpp:19-54 | when the machine reaches Complete along the table, no scope is open and endDocument accepts |
| ConfigHandler.SmallDocument | cfgxmlhandler.cpp:19-121 | `<configuration platform product/>` gives one parsed top-level element carrying both attributes |
| ConfigHandler.ConfigurationOpens | cfgxmlhandler.cpp:73-96 | the first `<configuration>` moves to state 1 and opens scope 0 |
| ConfigHandler.ConfigurationCloses | cfgxmlhandler.cpp:103-121 | its closing tag reaches FinalState and empties the scope stack |
| Resources.NewResource | resource.cpp:7-13 | a resource stores its path, type and root key |
| Resources.DefaultRoot | resource.h:47-48 | the root key defaults to the target root |
| Resources.NewManager | resource_manager.cpp:26-31 | a new manager maps the target root to the file-system root, and nothing else |
| Resources.GetResourcePath | resource_manager.cpp:33-40 | the lookup yields a path exactly for registered keys (a null string otherwise) |
| Resources.SetResourcePath | resource_manager.cpp:42-45 | setting registers the key |
| Resources.FreshManager | resource_manager.cpp:26-40 | a fresh manager resolves the target root and nothing for the remote root |
| Resources.GetAfterSet | resource_manager.cpp:33-45 | reading a key back after setting it gives the path just set |
| Resources.SetLeavesOtherKey | resource_manager.cpp:33-45 | setting one key leaves every other key's lookup as it was |
| Resources.SetIdempotent | resource_manager.cpp:42-45 | setting the same path twice is the same as setting it once |
| FsOperations.Execute | fsoperation.cpp:41-136 | execute reports OK; a copy resolves its source and then its destination, a remove or expect resolves its one resource |
| FsOperations.Undo | fsoperation.cpp:71-154 | undo reports OK; a copy resolves only its destination, a remove its resource, an expect nothing |
| FsOperations.Inverse | fsoperation.cpp:156-183 | the inverse of a copy swaps source and destination |
| FsOperations.Invert | fsoperation.cpp:88-225 | invert reports OK; only a copy resolves anything |
| FsOperations.InvertSwaps | fsoperation.cpp:156-183 | inverting a copy resolves exactly what executing the swapped copy resolves: destination first, then source |
| FsOperations.InverseInvolution | fsoperation.cpp:156-183 | inverting twice gives the original operation |
| FsOperations.UndoCopyRemovesDestination | fsoperation.cpp:138-154 | undoing a copy resolves exactly the destination that execute resolved last |
| FsOperations.Label | fsoperation.cpp:99-236 | the labels are "Remove p", "Copy p to q" and "Validate p", built from the resources' relative paths |
| FsOperations.LabelPrefix | fsoperation.cpp:99-236 | a label starts with the operation's verb, and the path follows it |
| Paths.DropRootPrefix | cfgparser.cpp:572-579 | exactly one leading '/' is removed if present; any other string is unchanged |
| Paths.SlashFrom | cfgparser.cpp:581-601 | finds the next '/' at or after a position, with no '/' between the position and it |
| Paths.Split | cfgparser.cpp:581-601 | splitting on '/' gives at least one part, and no part contains '/' |
| Paths.SplitRebuilds | cfgparser.cpp:581-601 | joining the parts with '/' gives back the string: the split loses nothing |
| Paths.SplitSingle | cfgparser.cpp:581-601 | a string splits into a single part exactly when it has no '/' |
| Paths.ConcatParts | cfgparser.cpp:593-599 | the loop concatenates each of the first n parts followed by '/' |
| Paths.DropNameAndRootPrefixLoop | cfgparser.cpp:581-601 | the loop computes the directory part of the path |
| Paths.DropNameSpec | cfgparser.cpp:581-601 | without a '/' the path comes back as it is; otherwise the result is a prefix of the path that ends in '/', and the rest (the name) has no '/' |
| Paths.DropNameExample | cfgparser.cpp:581-601 | "/etc/app.conf" gives "etc/" and "app.conf" gives "app.conf" |
| ConfigParser.MatchedKeys | cfgparser.cpp:21-45 | the lexemes copied out are those of the required keys in order, up to the first unset one; that key is the one missing |
| ConfigParser.AttributeValueInSet | cfgparser.cpp:47-56 | returns the first position of the raw value's typed value in the list, or -1 exactly when it is absent |
| ConfigParser.RootOf | cfgparser.cpp:475-484 | a root is known only when the root attribute is present |
| ConfigParser.RootLookupsAgree | cfgparser.cpp:364-484 | the copy's position-parity root lookup and the remove's if-chain agree |
| ConfigParser.AcceptResourceUri | cfgparser.cpp:280-291 | a resource URI consumes one element and appends its value to the URIs |
| ConfigParser.AcceptRemove | cfgparser.cpp:456-502 | a remove consumes one element and can only append to the update list |
| ConfigParser.AcceptRemoveSpec | cfgparser.cpp:456-502 | a missing root gives an invalid key, an unknown root value gives an invalid value, and both leave the parser unchanged; otherwise one remove operation of a file under that root is appended |
| ConfigParser.AcceptCopy | cfgparser.cpp:338-404 | a copy only consumes elements, only grows the parse stack and only appends to the update list; success restores the stack |
| ConfigParser.AcceptCopyOk | cfgparser.cpp:338-454 | a copy succeeds exactly when it is followed by a from and a to element, each with a known root; it then appends the copy from the from-file to the to-directory |
| ConfigParser.AcceptCopyFails | cfgparser.cpp:338-454 | a failing copy appends nothing and leaves on the stack at most the token of the from or to element it stopped at |
| ConfigParser.AcceptCopyStatus | cfgparser.cpp:338-454 | each way a copy can stop has its status: a from or to element of the wrong kind is an invalid element, left unconsumed with its token pushed; a from or to without a root is an invalid key and one with an unknown root an invalid value, with the endpoint consumed; a queue that ends after the copy or after a good from is undefined |
| ConfigParser.AcceptCopyTruncated | cfgparser.cpp:355-382 | a copy without a following from or to element reads the front of an empty queue (undefined) |
| ConfigParser.PathRun | cfgparser.cpp:240-262 | the run of file and directory elements at the front of the queue, and where it ends |
| ConfigParser.RunExpects | cfgparser.cpp:244-258 | the validate block turns each file or directory of its run into an expect of that resource |
| ConfigParser.RunBackups | cfgparser.cpp:188-204 | the backup block turns each file or directory of its run into a copy of it into the backup path |
| ConfigParser.ValidateLoop | cfgparser.cpp:239-270 | the validate loop consumes the whole run and appends one expect per element, in order |
| ConfigParser.BackupLoop | cfgparser.cpp:183-215 | the backup loop consumes the whole run and appends one backup copy per element, in order |
| ConfigParser.AcceptValidate | cfgparser.cpp:225-278 | validate consumes its element and the following run and appends the run's expects; an empty queue is an invalid element |
| ConfigParser.AcceptBackup | cfgparser.cpp:161-223 | backup without a path attribute is an invalid key, with its token pushed; otherwise it records the path and appends the run's backups |
| ConfigParser.OperationsLoop | cfgparser.cpp:306-328 | the operations loop only consumes elements, only grows the stack, only appends updates, and restores the stack on success |
| ConfigParser.AcceptOperations | cfgparser.cpp:293-336 | operations consumes at least its own element on success and only ever appends updates |
| ConfigParser.AcceptSection | cfgparser.cpp:98-114 | the switch hands a resource-URI, validate, backup or operations element to its own routine; any other element is an invalid element and nothing is consumed; no section changes the platform or product, and a successful one consumes at least one element and restores the stack |
| ConfigParser.ConfigurationLoop | cfgparser.cpp:94-120 | the section loop succeeds only after consuming the whole queue; an element that starts no section stops it as an invalid element, unconsumed, with its token pushed |
| ConfigParser.ScanValidateRun | cfgparser.cpp:239-270 | inside a validate section the reference scan adds one expect per file or directory of the run, as the validate loop does |
| ConfigParser.ScanBackupRun | cfgparser.cpp:183-215 | inside a backup section with a path the reference scan adds one backup copy per file or directory of the run, as the backup loop does |
| ConfigParser.ScanCopyGroup | cfgparser.cpp:338-404 | a well-formed copy, from, to group adds exactly its one copy operation to the reference scan |
| ConfigParser.ScanOperations | cfgparser.cpp:306-328 | a successful operations loop appends exactly the copy and remove operations the reference scan reads from the elements it consumed |
| ConfigParser.ScanValidateSection | cfgparser.cpp:225-278 | the output of a validate section is what the reference scan adds for its element and run |
| ConfigParser.ScanBackupSection | cfgparser.cpp:161-223 | the output of a backup section with a path, its path and copies included, is what the reference scan adds for its element and run |
| ConfigParser.ScanOperationsSection | cfgparser.cpp:293-336 | the output of a successful operations section is what the reference scan adds for the elements it consumed |
| ConfigParser.ScanSection | cfgparser.cpp:98-120 | a successful section leaves the output the reference scan of its consumed elements gives |
| ConfigParser.ConfigurationLoopScans | cfgparser.cpp:94-120 | a successful section loop builds exactly the output of the reference scan of the whole queue: the URIs, backup path and the validate, backup and update lists in document order |
| ConfigParser.ParseScans | cfgparser.cpp:58-129 | a successful parse's output is the header's platform and product plus the reference scan of every element after the first |
| ConfigParser.AcceptConfiguration | cfgparser.cpp:72-129 | without platform and product attributes, an invalid key; otherwise the header is recorded; success consumes everything and restores the stack; a failure keeps the configuration token at the stack's base |
| ConfigParser.Parse | cfgparser.cpp:58-65 | a successful parse consumed every element, ends with an empty stack, and took platform and product from the first element; a failure's parse stack starts at the first element's token |
| ConfigParser.LexemesOf | cfgparser.cpp:504-535 | the fault report names each stacked token by its lexeme |
| ConfigParser.StackText | cfgparser.cpp:528-533 | the loop builds the stack text from the top of the stack down |
| ConfigParser.Fault | cfgparser.cpp:504-535 | no report on success; otherwise the status message followed by the stack text and a newline |
| ConfigParser.StackTextIsJoin | cfgparser.cpp:528-533 | the stack text is the lexemes from top to bottom, joined by the separator |
| ConfigParser.FaultTextIsJoin | cfgparser.cpp:504-535 | the fault report is the status message followed by the reversed stack joined by the separator |
| ConfigParser.HeaderOnly | cfgparser.cpp:72-129 | a lone configuration element parses to just its platform and product |
| ConfigParser.BackupWithoutPath | cfgparser.cpp:94-180 | a backup without a path fails with an invalid key and leaves configuration, backup, backup on the stack |
| ConfigParser.FileOutsideSection | cfgparser.cpp:94-117 | a file element directly under configuration is an invalid element |
| Updater.NewUpdater | cfgupdater.cpp:46-71 | the constructor copies product, platform, URIs, backup path and the three lists from the parser, with all stack pointers at 0 |
| Updater.RunLog | cfgupdater.cpp:98-151 | each operation of a completed phase contributes its precondition call and its run |
| Updater.PhaseRun | cfgupdater.cpp:98-114 | a phase advances its stack pointer over operations whose precondition and run succeeded; it stops at the first failure and logs it with that operation |
| Updater.Exit | cfgupdater.cpp:36-44 | on_exit is the last call logged, and its reply is returned |
| Updater.ExecuteReading | cfgupdater.cpp:73-155 | a platform mismatch exits at once, a failing init or configure exits after it, stack pointers only grow, and a later phase starts only after the earlier one completed |
| Updater.Execute | cfgupdater.cpp:73-155 | execute with the update phase reading the update list keeps the plan and the updater invariant |
| Updater.ExecuteAsWritten | cfgupdater.cpp:136-137 | execute as written, with the update phase reading the backup list |
| Updater.PhaseCompletes | cfgupdater.cpp:98-151 | a phase whose operations all pass runs to its end |
| Updater.ExecuteSucceeds | cfgupdater.cpp:73-155 | when everything passes, all pointers reach the ends of their lists, the log shows init, configure and the three phases in order, and on_exit(OK) is returned |
| Updater.ExecuteResumes | cfgupdater.cpp:98-100 | execute resumes each phase at its stack pointer |
| Updater.PhaseFailsOnPre | cfgupdater.cpp:102-105 | a refused precondition stops the phase at that operation with BAD_PRECONDITION |
| Updater.NoBadResult | cfgupdater.cpp:107-110 | since every operation's execute returns OK, a failing exit that names an operation is always a precondition failure |
| Updater.UpdatePhaseReadsBackup | cfgupdater.cpp:136-137 | with one backup b and one update x, the code as written runs b in the update phase and never x; the intended version runs x |
| Updater.UndoLoop | cfgupdater.cpp:167-180 | an undo loop visits the executed operations last first and stops at the first whose undo fails |
| Updater.Undo | cfgupdater.cpp:157-183 | undo succeeds exactly when every executed update and backup undoes, and it undoes the updates last first, then the backups last first |
| Updater.UndoFailureWitness | cfgupdater.cpp:167-180 | a failing undo loop names an executed operation whose undo failed |
| Updater.UndoAsWritten | cfgupdater.cpp:167-180 | undo as written starts each loop at its counter inclusive and reads the update list in both loops |
| Updater.UndoBeforeExecute | cfgupdater.cpp:167-180 | before anything has run, undo as written undoes the first update twice; the intended undo undoes nothing |
| Updater.SuccessfulRuns | cfgupdater.cpp:73-155 | a fully successful execute runs exactly the backup list and then the update list, in order |
| Updater.UndoReversesExecute | cfgupdater.cpp:157-183 | after a fully successful execute, undo undoes exactly the operations the log shows run, in reverse order: updates, then backups |
| LegacyMachine.AssignedIsInitStates | xmlstatemachine.cpp:92-153 | the decoded table agrees with the init_states assignment list in both directions |
| LegacyMachine.NextIsTable | xmlstatemachine.cpp:14-153 | listed pairs go where init_states assigns them, unlisted pairs go to state 0, and the final state 15 leads back to 0 on every input |
| LegacyMachine.NextNeverFaults | xmlstatemachine.cpp:14-153 | no transition leads to FaultState |
| LegacyMachine.StatusOf | xmlstatemachine.cpp:176-183 | the status is Complete exactly in FinalState and Fault exactly in FaultState |
| LegacyMachine.Reset | xmlstatemachine.cpp:185-188 | reset returns to StartState, whose status is OK |
| LegacyMachine.InputToken | xmlstatemachine.cpp:155-161 | input reports the new state's status, never Fault |
| LegacyMachine.LexemeParts | xmlstatemachine.cpp:17-42 | opening transitions are spelled `<tag>`, closing ones `</tag>` |
| LegacyMachine.LexemeInjective | xmlstatemachine.cpp:17-42 | no two transitions share a lexeme |
| LegacyMachine.LexemesDistinct | xmlstatemachine.cpp:81-90 | the lexemes loaded into the constructor's hash map are distinct |
| LegacyMachine.TokenOf | xmlstatemachine.cpp:163-174 | a lexeme is found exactly when some transition has it, and then that transition is returned |
| LegacyMachine.TokenOfIsMapLookup | xmlstatemachine.cpp:81-90 | the lookup agrees with the hash map that the constructor builds |
| LegacyMachine.InputLexeme | xmlstatemachine.cpp:163-174 | an unknown lexeme reports Fault without moving; a known one behaves as input of its transition |
| LegacyMachine.KnownLexemeNeverFaults | xmlstatemachine.cpp:163-174 | every transition's lexeme is recognised and never faults |
| LegacyMachine.RunAppend | xmlstatemachine.cpp:155-161 | feeding two sequences in turn is the same as feeding their concatenation |
| LegacyMachine.RunNeverFaults | xmlstatemachine.cpp:14-153 | no transition sequence reaches FaultState |
| LegacyMachine.Witness | xmlstatemachine.cpp:92-153 | every non-fault state has a path of listed transitions from StartState |
| LegacyMachine.ReachableStates | xmlstatemachine.cpp:92-153 | a state is reachable exactly when it is not FaultState |
| LegacyMachine.EmptySwupdateCompletes | xmlstatemachine.cpp:95-101 | `<swupdate></swupdate>` ends in FinalState with status Complete |
| LegacyMachine.CopyBodyForced | xmlstatemachine.cpp:126-147 | staying inside `<copy>` until it returns to the update state forces a sequence of directory or file pairs, each followed by its to-directory, and then `</copy>` |
| LegacyMachine.CopyBodyAccepted | xmlstatemachine.cpp:126-147 | every such sequence stays inside the copy and returns to the update state |
| LegacyMachine.EmptyCopyAccepted | xmlstatemachine.cpp:126-128 | `</copy>` directly after `<copy>` is accepted |
| LegacyTokens.NewToken | token.cpp:5-11 | a new token has the given transition and parent, no value, is not ready and has no attributes |
| LegacyTokens.SetValue | token.cpp:13-17 | setValue stores the text and marks the token ready, leaving the rest alone |
| LegacyTokens.SetAttributes | token.cpp:24-41 | setAttributes changes only the attribute map and returns a count no larger than the list |
| LegacyTokens.SetAttributesSpec | token.cpp:24-41 | with j the first unknown name: the count returned is j; exactly the keys before j are added, each with the first value given for its name; other keys keep their values |
| LegacyTokens.SetAttributesAllKnown | token.cpp:24-41 | the count equals the list length exactly when every name is a key spelling |
| LegacyTokens.RepeatedKeyKeepsFirstValue | token.cpp:37 | two "path" attributes store the first one's value |
| LegacyTokens.UnknownNameStops | token.cpp:30-35 | an unknown name stops the loop: later known names are not stored |
| LegacyTokens.ValueOfFirst | token.cpp:37 | the value stored for a name is the value of its first occurrence in the list |
| LegacyHandler.NewChild | xmlhandler.cpp:115-122 | a new token's parent is the top of the scope stack; it has no value and is not ready |
| LegacyHandler.StartElement | xmlhandler.cpp:97-141 | startElement always has a defined outcome |
| LegacyHandler.StartElementUnknown | xmlhandler.cpp:106-109 | an unknown opening tag is refused and the handler is unchanged |
| LegacyHandler.StartElementOpens | xmlhandler.cpp:113-136 | a known opening tag steps the machine, appends one token whose parent is the previous scope top, and makes it the new scope top |
| LegacyHandler.EndElementCloses | xmlhandler.cpp:143-161 | a known closing tag steps the machine and pops the scope; with an empty scope stack the pop is undefined |
| LegacyHandler.EndElementUnknown | xmlhandler.cpp:149-153 | an unknown closing tag is refused and the handler is unchanged |
| LegacyHandler.Characters | xmlhandler.cpp:163-184 | characters touches at most the last token, and never the machine or the stacks |
| LegacyHandler.CharactersFillsLast | xmlhandler.cpp:163-184 | text goes to the last token only while it is not ready |
| LegacyHandler.EndDocument | xmlhandler.cpp:61-95 | the document counts as parsed exactly when the machine is Complete and no scope is open |
| LegacyHandler.StartElementValid | xmlhandler.cpp:113-136 | opening keeps the tree-shape invariant |
| LegacyHandler.EndElementValid | xmlhandler.cpp:143-161 | closing keeps the tree-shape invariant |
| LegacyHandler.CharactersValid | xmlhandler.cpp:163-184 | text keeps the tree-shape invariant |
| LegacyHandler.FeedValid | xmlhandler.cpp:97-184 | any defined run of events keeps the tree-shape invariant |
| LegacyHandler.FeedPreorder | xmlhandler.cpp:113-136 | after a run with no refusal, the token stack holds one token per accepted opening tag, in document order |
| LegacyHandler.SmallDocument | xmlhandler.cpp:55-161 | `<swupdate></swupdate>` gives one parsed top-level token |
| LegacyHandler.SwupdateOpens | xmlhandler.cpp:97-141 | `<swupdate>` moves to state 1 and opens scope 0 |
| LegacyHandler.SwupdateCloses | xmlhandler.cpp:143-161 | `</swupdate>` reaches FinalState and empties the scope stack |
| LegacyHandler.StrayCloseIsUndefined | xmlhandler.cpp:155-156 | a document that starts with `</swupdate>` pops an empty scope stack, which is undefined |

## Left out

- Logging (`qDebug`, `qCritical`, `qInfo`) produces output only; it is not modelled.
- The XML tokenizer (`QXmlSimpleReader`) is not modelled: documents are event sequences. `fatalError` only logs.
- `startDocument`, `startCDATA` and `endCDATA` change nothing the model observes.
- `endDocument`'s listing of the element/token stack (cfgxmlhandler.cpp:19-54, xmlhandler.cpp:76-89) is output only; the model keeps its accept/reject decision.
- `g_map_transition_str` in xmlstatemachine.cpp is display text only.
- The file-system helpers `copy_file`, `copy_directory`, `remove_file` and `remove_directory` (fsoperation.cpp:245-385) are not modelled. In this revision the operations only resolve paths and never call them.
- `errstr()` of the operations is a diagnostic string; it is not modelled.
- update.cpp, operation.cpp, updatethread.cpp, mainwindow.cpp and main.cpp (the legacy update runner, its threads and the UI) are not part of this model.
- The singletons (`Attributes::get_instance`, `ResourceManager::get_instance`) are plain values passed along.
- Qt's `QString` comparison is modelled as lexicographic order on characters, without locale or Unicode collation.
- The delegate callbacks and each operation's undo result are oracles, not code.
- FsOperations.Execute: states the resolved paths and the OK result, not any file-system effect, because this revision comments out every file-system call.
- Updater.Execute: states only that the plan and the invariant are kept; the phase-by-phase behaviour is stated by `Updater.ExecuteReading` and the lemmas about it.
- Updater.ExecuteAsWritten: requires the update list to be no longer than the backup list, because reading beyond the backup list with `QVector::at` is undefined.
- Updater.UndoAsWritten: requires both counters to be below the update list's length, because `QVector::at` is undefined beyond it. This excludes undo after a completed update phase: there the first loop reads `at(|update|)`, one past the end, which the model leaves unstated.

## Findings

| source | as written | input that shows it | evidently intended | confidence | as-written member | corrected member |
|---|---|---|---|---|---|---|
| cfgupdater.cpp:136-137 | the update loop takes `d_backup_operations.at(d_update_sp)` | one backup b and one update x ≠ b, all succeeding: b is run a second time and x never | take `d_update_operations.at(d_update_sp)` | not executed | Updater.UpdatePhaseReadsBackup | Updater.ExecuteSucceeds |
| cfgupdater.cpp:167-180 | both undo loops start at `sp` inclusive, and the second reads `d_update_operations` | fresh counters with one backup b and one update x: x is undone twice before anything ran | undo `update[sp-1 .. 0]`, then `backup[sp-1 .. 0]` | not executed | Updater.UndoBeforeExecute | Updater.UndoReversesExecute |
