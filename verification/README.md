# A model of the Zigbee device service

This project models the parts of an EdgeX device service for Zigbee devices that keep its data right, and proves
what those parts are for. It has one module for each component.

- **JSON (Parson).** `JsonValue`, `JsonPrint` and `JsonParse` define values, the text written for them and what the
  parser computes. `JsonGrammar` defines, apart from all three, how a value may be spelled; `JsonReading` and
  `JsonSpelled` prove that the spellings are what is read, in both directions, and `JsonRoundTrip` that what is printed
  is one of them, so that reading undoes writing; `JsonParseFacts` is what holds of all accepted texts. `JsonParser` is
  the recursive-descent parser with its moving cursor and scratch buffers; `JsonSerializer` is the serializer, which
  counts when it has no buffer and writes when it has one. `Utf8` and `Utf8Strings` are the validation and the escapes.
  `JsonEquals` is the comparison, `JsonPaths` the laws of dotted paths, and `JsonStore` the heap nodes with parent
  links. `FiniteSets` holds the counting argument that both comparisons of lists share.
- **Hash map.** `HashMap` is the bucket array with linked nodes, refined to a finite map through set, get, remove,
  resizing and failed allocation; `HashMapIteration` is the iterator, also while entries are removed; `BitMask` is the
  arithmetic of bucket selection.
- **Device map.** `DevMap` is a state machine whose steps are single statements of many threads at one read/write
  lock. `DevMapInvariant` proves what every run keeps of counts and pointers, `DevMapIndexes` when the indexes agree,
  and `DevMapSafety` what both mean for callers. `DeviceTable` is the same code as methods, one statement after
  another, `DeviceCalls` what each call does as a whole and exactly when that keeps the invariants. In `DeviceRuns`
  each call (replace, populate, the removals and lookups, the devices for a command, release, adding a profile) is a
  run of that machine, and other runs show where harm comes from. `ListCompare` is the comparison that decides between
  updating a device in place and replacing it.
- **Codecs and arithmetic.** `Base64` encodes and decodes through fixed buffers; `Transform` is the integer transforms.
- **Serial protocol.** `Queue` is the bounded queue that drops its oldest item; `ReplyMatching` is a state machine of
  the threads that wait at it for replies, and `ReplyProgress` says when they get them; `Frames` and `FrameFacts` take
  frames apart; `DeviceScript` is the device at the other end; `FrameRoundTrip` joins the two ends, and
  `TypedExchange` follows a value from a PUT to the GET that reads it.
- **Command index.** `CommandIndex` is the list of commands a device profile builds on first use.

A Dafny `char` stands for one byte, and a `string` for the bytes before the terminator. Where the C code would have
undefined behaviour on an input, the model answers `None`, `Undefined` or `Crashed`, so that a theorem either shows
that the case does not arise or says exactly when it does.

Some results are that the code does not do what one would expect. Each comes with the exact condition under which it
happens, most also with an input that shows it:

- A device or command name that ends in "value" makes the service read the wrong fields as values
  (`FrameFacts.NameEndingInValue`; `FrameFacts.EventComesBack`).
- A reply that nobody waits for blocks the queue for everyone (`ReplyProgress.StrangerAtFront`;
  `ReplyProgress.FrontMovesIffWanted`, `ReplyProgress.UnwantedBlocks`), and a late reply is given to the next call for
  its device (`ReplyProgress.LateReplyGoesToNextCall`; `ReplyProgress.StaleIffQueued`).
- List comparison is not equality of maps when a name is repeated (`ListCompare.RepeatedNamesAreOneWay`;
  `ListCompare.PairsDecidedIffDistinct` and its siblings), and a device with two different automatic events of one name
  is never updated in place (`DevMapSafety.InPlaceIffMatchable`).
- Removing an absent device id follows a null pointer (`DeviceRuns.RemoveByIdIsARun`;
  `DevMapSafety.RemoveByIdCrashesIff`).
- Populating with a new name for a known id loses the device that had the id, which is never freed, and a later lookup
  of its name can follow a null pointer (`DeviceRuns.IdTaken`, `DeviceRuns.LostForever`,
  `DeviceRuns.StaleNameCrashes`; `DeviceCalls.PopulateCountsIff`, `DeviceCalls.PopulateAgreesIff`).
- Replacing with a known name for a new id parts names from ids, and storing a profile under a known name parts
  devices from it, though neither touches counts or pointers (`DeviceRuns.NameTaken`, `DeviceRuns.ProfileReplaced`;
  `DeviceCalls.ReplaceAgreesIff`, `DevMapSafety.AddProfileKeepsIff`).
- The parent test of a set or append does not catch the root above the container, which closes a cycle
  (`JsonStore.RootIntoItself`; `JsonStore.Node.SetValue`, `JsonStore.Node.AppendValue`).
- A lone minus sign parses as 0 without being consumed (`JsonParseFacts.BareMinusText`;
  `JsonParseFacts.BareMinusIsZero`, `JsonParseFacts.NumberStaysIff`).
- Comparison of JSON values does not chain through numbers (`JsonEquals.NumbersAreNotTransitive`;
  `JsonEquals.ChainsIffNumeralFree`).
- A 64-bit unsigned reading of 2^63 or more is taken for a negative number: a wrong number can go out silently
  (`Transform.WrongNumbers`; `Transform.WrongNumberIff`, `Transform.OutgoingIsExactOrOverflow`), and "overflow" is
  reported even when the transforms change nothing (`Transform.IdentityArguments`).
- A queue of capacity 0 holds 65536 items (`Queue.CapacityZeroHolds65536`; `Queue.HoldsTheLast`, `Queue.NothingIsLost`).

## Model

| member | source | states |
|---|---|---|
| JsonReading.SpelledIsRead | random/parson.c:679-865 | However a value is spelled (white space of any of the six kinds around every token, characters as themselves, as two-character escapes or as \u with digits of either case, surrogate pairs, integers with or without a minus sign), at any place in a text: it is read as that value with the cursor just past its last byte, exactly within the nesting limit. The spellings, their texts and their values are defined by tables, apart from the parser; strtod is assumed to read integers |
| JsonReading.SpelledTextIsRead | random/parson.c:1132-1140 | The same for a whole text: an optional byte order mark, white space, the spelling, and anything after it |
| JsonSpelled.ValueWasRead | random/parson.c:679-865 | Conversely, wherever a value without floating numbers is read, white space and a spelling of that value stand there and the cursor is just past them; the one exception is the 0 of a bare minus sign |
| JsonSpelled.AcceptedTextIsSpelled | random/parson.c:1132-1140 | The same for a whole text: if it is accepted and its value holds no floating number, it is an optional byte order mark, white space, a spelling of the value and whatever follows |
| JsonReading.BytesAreEncoding | random/parson.c:580-606 | The bytes written for a code point are its UTF-8 encoding: leading bits after their marker, then six bits in each continuation byte (section 3 of RFC 3629) |
| JsonRoundTrip.PrintIsSpelled | random/parson.c:878-1097 | The text printed for a tree is that of one spelling, which is a valid one of the tree: every element on its own line, four blanks a level, or without any white space; only control characters, quotes and backslashes escaped, with a letter where there is one and with lower-case digits otherwise; integers without superfluous zeros |
| JsonRoundTrip.PrintThenParse | random/parson.c:679-865 | A printed tree of null, booleans, 64-bit integers, zero-free strings, arrays and distinct-name objects, compact or pretty, at any indentation and inside any surrounding text, parses back to the same tree with the cursor just past it; exactly when it nests at most 2048 deep, and otherwise the parser fails |
| JsonRoundTrip.PrintIsInjective | random/parson.c:878-1097 | Two trees without floating numbers whose texts are equal are equal, whatever layout each was printed in and however deep they nest |
| JsonRoundTrip.PrintedString | random/parson.c:1029-1088 | Every zero-free byte string survives escaping and get_quoted_string, which stops just past its closing quote |
| JsonRoundTrip.PrintedInteger | random/parson.c:839-856 | Every integer up to 2^64 - 1 survives decimal printing exactly, without passing through a double |
| JsonParseFacts.QuotedExactly | random/parson.c:543-677 | When a quoted string is accepted, unescaping stops exactly at the closing quote skip_quotes found, even inside \u pairs, and the result is no longer than what was read |
| JsonParseFacts.ParsedValue | random/parson.c:679-865 | Every parsed tree has distinct names in every object, zero-free strings, 64-bit integers, and obeys the nesting limit counted from where parsing started |
| JsonParseFacts.ReadPrintRead | random/parson.c:1132-1140 | Whatever text was read, as long as the tree read holds no floating number: printing it in either layout and reading that gives the same tree and consumes the whole text |
| JsonParseFacts.BareMinusIsZero | random/parson.c:839-856 | At any cursor on a minus sign for which strtod reports no error and consumes nothing, the number read is the integer 0 with the cursor not advanced, exactly when no digit follows |
| JsonParseFacts.NumberStaysIff | random/parson.c:839-856 | At any cursor on a minus sign or a digit, a number is accepted without advancing the cursor exactly when strtod reports no error and consumes nothing; it is then the integer 0 if strtoull consumes nothing either, else what strtod gave |
| JsonParseFacts.BareMinusText | random/parson.c:839-856 | A whole text that starts with a minus sign and no digit is accepted as 0 with nothing consumed, when strtod consumes nothing: the input that shows it |
| JsonParser.ParseString | random/parson.c:1132-1140 | The cursor-moving parser, with its byte order mark test, returns for every text what the specification does, which SpelledTextIsRead and AcceptedTextIsSpelled tie to the grammar in both directions |
| JsonParser.Parser.ParseJson | random/parson.c:679-702 | From any cursor position the recursive descent yields the specified value and leaves the cursor where the specification says, within the text |
| JsonParser.Parser.ParseJsonArray | random/parson.c:766-810 | Loop over elements and commas: result and final cursor are those of the specification, including an empty array and every failure |
| JsonParser.Parser.ParseJsonObject | random/parson.c:704-764 | Loop over members: result and final cursor are those of the specification; a repeated name fails |
| JsonParser.Parser.GetQuotedString | random/parson.c:668-677 | The quoted text at the cursor is unescaped as specified and the cursor is left past the closing quote |
| JsonParser.ProcessString | random/parson.c:612-666 | With a scratch buffer of length + 1 bytes no write leaves the buffer, and the string is the specified unescaping cut at its first zero byte |
| JsonParser.ParseUtf16 | random/parson.c:563-607 | The bytes stored for an escape or surrogate pair are its UTF-8 encoding, both cursors end on the last byte read and written, and every other byte of the buffer, before and after, is as it was |
| JsonSerializer.Serialize | random/parson.c:878-1027 | With a buffer or without, the count returned is the length of the text; with one, exactly the text is written at the position given, and only the terminator after it besides |
| JsonSerializer.SerializeString | random/parson.c:1029-1088 | Quoting and escaping writes exactly the escaped text, and the dry run counts the same number of bytes |
| JsonSerializer.SerializationSize | random/parson.c:1534-1538 | The dry run gives the exact size of the text plus its terminator |
| JsonSerializer.SerializeToBuffer | random/parson.c:1540-1551 | Succeeds exactly when the text and its terminator fit; then the buffer starts with them and the rest is untouched, otherwise nothing is written |
| JsonSerializer.SerializeToString | random/parson.c:1575-1592 | The allocated buffer is filled to its last byte by the text and the terminator |
| Utf8.IsValidUtf8 | random/parson.c:243-253 | Accepts a byte string exactly when it is a concatenation of UTF-8 encodings of Unicode scalar values (sections 3 and 4 of RFC 3629) |
| Utf8.ValidIffUtf8 | random/parson.c:186-253 | The test of each sequence for length, continuation bytes, overlong forms, surrogates and range decides that definition in both directions |
| Utf8.EncodingIsUnique | random/parson.c:201-241 | An accepted sequence is the one encoding of the scalar value it yields |
| Utf8Strings.Utf16Code | random/parson.c:563-607 | An accepted \u escape or surrogate pair writes the UTF-8 encoding of the scalar value it denotes (section 7 of RFC 8259) |
| Utf8Strings.QuotedIsUtf8 | random/parson.c:612-677 | A string unescaped from valid UTF-8 text is valid UTF-8 |
| JsonEquals.EqualValues | random/parson.c:2043-2113 | The loops of json_value_equals decide the recursive comparison |
| JsonEquals.EqualIffSameMeaning | random/parson.c:2043-2113 | On trees without floating numbers, searching one way after comparing counts decides equality of finite maps, at every level |
| JsonEquals.EqualIsEquivalence | random/parson.c:2043-2113 | On all trees, floating numbers included, the comparison is reflexive and symmetric; on trees without floating numbers it is also transitive |
| JsonEquals.OrderIsIgnored | random/parson.c:2077-2091 | Any reordering of the members of an object, floating numbers included, compares equal to it |
| JsonEquals.NumbersAreNotTransitive | random/parson.c:2103-2104 | With floating numbers the tolerance is not transitive: a witness |
| JsonEquals.ChainsIffNumeralFree | random/parson.c:2043-2113 | Over the reals: two values that both compare equal to a given tree always compare equal to each other exactly when that tree holds no number, floating or integer |
| JsonPaths.SetFieldLaws | random/parson.c:1819-1838 | Setting a name keeps names distinct, makes the name read as the value, and leaves every other name as it was |
| JsonPaths.RemoveFieldLaws | random/parson.c:428-449 | Removing by moving the last member keeps names distinct, makes the name absent, and leaves every other name as it was |
| JsonPaths.RemoveFieldKeepsOthers | random/parson.c:428-449 | Exactly the named member leaves the object, as a multiset |
| JsonPaths.ComponentsAre | random/parson.c:1190-1197 | The components at which a path is taken apart are the only names without dots that give the path when dots are put between them |
| JsonPaths.SetThenGet | random/parson.c:1860-1900 | After a successful dotted set the path reads the value, names stay distinct at every depth, and every path not prefix-comparable with it reads as before |
| JsonPaths.SetFailsIffBlocked | random/parson.c:1860-1900 | A dotted set fails exactly when a proper prefix of the path names a value that is not an object |
| JsonPaths.SetThenGetInside | random/parson.c:1190-1197 | A longer path reads, after a set, what it would read inside the value set |
| JsonPaths.RemoveSucceedsIffPresent | random/parson.c:451-464 | A dotted remove succeeds exactly when the path reads a value |
| JsonPaths.RemoveThenGet | random/parson.c:451-464 | After a successful dotted remove the path is absent, names stay distinct, and unrelated paths read as before |
| JsonPaths.RemoveUndoesSet | random/parson.c:1860-1900 | Removing what was just added to an existing object restores the whole tree, order included |
| JsonStore.Node.SetValue | random/parson.c:1819-1838 | On heap nodes: refuses a value that has a parent and changes nothing; otherwise overwrites or appends and sets the parent link. Then all links are right with the specified object, or, exactly when this object lies in the tree below the value (so the value is its own root), there is a way down from the value to itself: a cycle |
| JsonStore.Node.RemoveValue | random/parson.c:428-449 | On heap nodes: fails exactly when the name is absent, writing nothing; otherwise the object is the specified one and all links hold |
| JsonStore.Node.DotGetValue | random/parson.c:1190-1197 | Walking down the nodes finds a node of this tree exactly when the path reads a value, and that value |
| JsonStore.Node.DotSetValue | random/parson.c:1860-1900 | On heap nodes: succeeds exactly when the value has no parent and no prefix blocks it; a failure writes nothing; a success gives the specified tree with all links right and new intermediate objects fresh, or a cycle exactly when this object lies below the value |
| JsonStore.Node.DotRemoveValue | random/parson.c:451-464 | On heap nodes: the dotted remove of the specification, with all parent links kept; a failure writes nothing |
| JsonStore.Node.AppendItem | random/parson.c:490-501 | Appends a parentless value to an array and sets its parent link; a cycle exactly when the array lies below the value |
| JsonStore.Node.AppendValue | random/parson.c:1752-1757 | Refuses a value that has a parent and changes nothing; otherwise appends it as above, the root above the array included |
| JsonStore.RootIntoItself | random/parson.c:1819-1838 | An object set into itself passes the parent test and becomes its own parent and child: the input that shows it |
| JsonStore.ValidHasNoCycle | random/parson.c:428-464 | In a correctly linked tree no way down returns to where it started, so the two outcomes of a set exclude each other |
| JsonStore.Apart | random/parson.c:1819-1838 | A parentless value that is not above an object shares no node with the tree of that object: the parent test catches every other sharing |
| JsonStore.Node.DeepCopy | random/parson.c:1453-1532 | An equal tree made of fresh nodes only, correctly linked, with no parent |
| BitMask.MaskIsMod | device-sdk-c/src/c/map.c:48-54 | Masking a hash with a power of two less one is taking its remainder |
| BitMask.BitOfAnd | device-sdk-c/src/c/transform.c:171-176 | Bit k of the bitwise AND is set exactly when it is set in both numbers, for every k |
| HashMap.HashMap.Get | device-sdk-c/src/c/map.c:141-145 | Finds a node exactly when the finite map holds the key, and that node carries its value |
| HashMap.HashMap.GetRef | device-sdk-c/src/c/map.c:105-121 | The bucket selected by the hash decides membership; the predecessor found is the one to relink |
| HashMap.HashMap.Set | device-sdk-c/src/c/map.c:147-176 | The finite map gains the binding; on a failed malloc or realloc the result is failure and the contents are unchanged; buckets stay 0 or a power of two and at least as many as nodes |
| HashMap.HashMap.Resize | device-sdk-c/src/c/map.c:63-103 | Unlinking and re-adding keeps every node, each in the bucket its hash selects, also when realloc fails |
| HashMap.HashMap.Remove | device-sdk-c/src/c/map.c:178-188 | The finite map loses the key; only that node is unlinked |
| HashMapIteration.Iter.Next | device-sdk-c/src/c/map.c:198-219 | Steps to the first of the nodes still to visit, or ends; the rest is what was left without it |
| HashMapIteration.AllKeys | device-sdk-c/src/c/devmap.c:127-133 | A fresh iterator meets every key of the map exactly once |
| HashMapIteration.ClearAll | device-sdk-c/src/c/devmap.c:55-69 | Advancing before each removal visits every key exactly once, releases every value, and leaves the map empty |
| HashMapIteration.KeysOfNodes | device-sdk-c/src/c/map.c:190-219 | The nodes in iteration order list the keys of the finite map without repetition |
| ListCompare.CompareLists | device-sdk-c/src/c/devutil.c:15-34 | The nested loops decide: equal lengths, and every entry of the first list has a first namesake in the second that compares equal |
| ListCompare.CompareDecidesMaps | device-sdk-c/src/c/devutil.c:15-34 | With distinct names in the first list that is equality of finite maps, by the pigeonhole principle |
| ListCompare.PairsEqualIffSameMap | device-sdk-c/src/c/devutil.c:36-41 | Name/value lists compare equal exactly when they are the same finite map |
| ListCompare.ProtocolsEqualIffSameMap | device-sdk-c/src/c/devutil.c:43-49 | The same one level down, for lists of protocols with property lists |
| ListCompare.AutoEventsEqualIffSameMap | device-sdk-c/src/c/devutil.c:51-58 | The same for automatic events, on frequency and on-change flag |
| ListCompare.PairsDecidedIffDistinct | device-sdk-c/src/c/devutil.c:36-41 | For every first list, comparing with it decides equality of maps, for all second lists, exactly when its names are distinct |
| ListCompare.AutoEventsDecidedIffDistinct | device-sdk-c/src/c/devutil.c:51-58 | The same exact condition for automatic events |
| ListCompare.ProtocolsDecidedIffDistinct | device-sdk-c/src/c/devutil.c:43-49 | The same exact condition for protocols: distinct names, and distinct names in every property list |
| ListCompare.EqualsSomethingIffConsistent | device-sdk-c/src/c/devutil.c:15-34 | A list compares equal to itself, and to any list at all, exactly when entries of one name have one value |
| ListCompare.PairsEqualSomethingIffConsistent | device-sdk-c/src/c/devutil.c:36-41 | The same for name/value lists |
| ListCompare.AutoEventsEqualSomethingIffConsistent | device-sdk-c/src/c/devutil.c:51-58 | The same for automatic events |
| ListCompare.ProtocolsEqualSomethingIffMatchable | device-sdk-c/src/c/devutil.c:43-49 | A list of protocols, repeated names or not, compares equal to some list exactly when under each protocol name the property lists are equally long, no property has two values, and there are no more property names than that length |
| ListCompare.ProtocolsEqualIsEquivalence | device-sdk-c/src/c/devutil.c:43-49 | On lists with distinct names the comparison is symmetric and transitive |
| ListCompare.RepeatedNamesAreOneWay | device-sdk-c/src/c/devutil.c:15-34 | The input that shows it: a list with a repeated name equals another, which does not equal it |
| DevMapInvariant.StepKeeps | device-sdk-c/src/c/devmap.c:87-335 | Every statement of every thread keeps the invariant on lock, counts, freeing and what the maps lead to, when a call that starts to write is harmless: a removed id is present, and each populated device with an unknown name has an unknown id at its turn |
| DevMapInvariant.RunKeeps | device-sdk-c/src/c/devmap.c:87-335 | That invariant holds after every interleaving of lookups, releases, populates, replaces, removes and profile additions in which each call that writes is harmless: replacing under a moved name and storing a profile under a known name included |
| DevMapIndexes.StepAgrees | device-sdk-c/src/c/devmap.c:87-335 | Every statement of every thread keeps names and ids mutually inverse and profiles shared, up to what the writer is about to do, when a call that starts to write is permitted: harmless, and neither moving a name to another id nor storing a profile under a known name |
| DevMapIndexes.RunAgrees | device-sdk-c/src/c/devmap.c:87-335 | So they are after every interleaving of permitted calls |
| DevMapSafety.NothingDangles | device-sdk-c/src/c/devmap.c:232-262 | After every harmless run, even where the indexes no longer agree: no thread has followed a null or dangling pointer, no holder, map entry or lookup refers to a freed device, and every entry of the name index leads, through the id string of a device not freed, to that device |
| DevMapSafety.CountsAreExact | device-sdk-c/src/c/devmap.c:232-335 | After every harmless run, outside the write lock, a count is one if the device is in the map plus one for each live holder |
| DevMapSafety.FreedAtZero | device-sdk-c/src/c/devmap.c:327-335 | A device is freed only at count zero, and only by the thread that took it there |
| DevMapSafety.ZeroWillBeFreed | device-sdk-c/src/c/devmap.c:327-335 | A device at count zero always has a thread whose next step frees it |
| DevMapSafety.FreedOnce | device-sdk-c/src/c/devmap.c:327-335 | In every harmless run each device is freed at most once, and marked freed exactly when it was |
| DevMapSafety.FreedStaysFreed | device-sdk-c/src/c/devmap.c:166-230 | No step writes to a freed device |
| DevMapSafety.IndexesAlwaysAgree | device-sdk-c/src/c/devmap.c:87-118 | After every permitted run, with the write lock free, name-to-id and id-to-name are mutually inverse and every device shares the profile object stored under its profile name |
| DevMapSafety.AddLockedAgreesIff | device-sdk-c/src/c/devmap.c:87-104 | Adding keeps the two indexes inverse exactly when id and name are both new or already belong together |
| DevMapSafety.RemoveByIdCrashesIff | device-sdk-c/src/c/devmap.c:279-286 | With the lock free, removing by id follows a null pointer exactly when the id is absent |
| DevMapSafety.AddProfileKeepsIff | device-sdk-c/src/c/devmap.c:288-293 | Adding a profile under any name keeps counts and pointers; it keeps the indexes in agreement exactly when every device of that profile name that is not freed, in the map or only held, already points to the object added; a new name is one such case |
| DevMapSafety.InPlaceIffMatchable | device-sdk-c/src/c/devmap.c:178-209 | For every device: some description updates it in place exactly when its automatic events of one name agree and its protocols can equal some list; its own description does when its events agree and its protocols equal themselves. Otherwise every replacement removes it and adds a new object |
| DeviceTable.DeviceMap.AddDevice | device-sdk-c/src/c/devmap.c:87-104 | Statement by statement: one new device with exactly the description given and one reference, stored under id and name, sharing the known profile; the invariants that hold inside the write lock before hold after |
| DeviceTable.DeviceMap.RemoveLocked | device-sdk-c/src/c/devmap.c:166-171 | Name and id go, the reference of the map is dropped, and the device is freed exactly when it was the last |
| DeviceTable.DeviceMap.PopulateDevices | device-sdk-c/src/c/devmap.c:106-118 | The loop adds, in order, the devices whose names are not known yet, for every list, each with exactly the description given; counts stay exact exactly when the list is harmless, and indexes in agreement exactly when it is permitted |
| DeviceTable.DeviceMap.ReplaceDevice | device-sdk-c/src/c/devmap.c:211-230 | Add, update in place or remove and add, as the comparison decides, for every device; afterwards the id given leads to a live device with every field as given and nothing else has changed; counts always stay exact, and indexes in agreement exactly when the name is not moved to another id |
| DeviceTable.DeviceMap.RemoveDeviceByName | device-sdk-c/src/c/devmap.c:264-277 | Removes the device of a known name and is without effect for another; indexes that agreed still do |
| DeviceTable.DeviceMap.RemoveDeviceById | device-sdk-c/src/c/devmap.c:279-286 | Removes the device of a present id; for an absent one, exactly, the behaviour is undefined |
| DeviceTable.DeviceMap.AddProfile | device-sdk-c/src/c/devmap.c:288-293 | Stores the profile, for every name; counts always stay exact, and the indexes in agreement exactly when each device of that profile name points to it |
| DeviceTable.DeviceMap.DeviceById | device-sdk-c/src/c/devmap.c:232-246 | Hands out the stored device with one more reference, or nothing |
| DeviceTable.DeviceMap.DeviceByName | device-sdk-c/src/c/devmap.c:248-262 | The same through the name index, which never leads nowhere |
| DeviceTable.DeviceMap.DevicesForCommand | device-sdk-c/src/c/devmap.c:295-325 | Exactly the devices in the map that are enabled, unlocked and have the command are handed out, each once, with one more reference each and nothing else changed |
| DeviceTable.DeviceMap.Release | device-sdk-c/src/c/devmap.c:327-335 | One holder and one reference less; freed exactly when it was the last |
| DeviceCalls.ReplacedHolds | device-sdk-c/src/c/devmap.c:173-230 | After replacing, the id given is stored and its device is live with the id, name and profile name given and every other field as given, admin state included; its automatic events and protocols compare equal to those given when it is the same object, and are those given when it is new; every other id and the description of every other device are as they were |
| DeviceCalls.AddedHolds | device-sdk-c/src/c/devmap.c:87-104 | A device added is live with exactly the description given and one reference, stored under its id and its name; all else is as it was |
| DeviceCalls.PopulatedHolds | device-sdk-c/src/c/devmap.c:106-118 | Populating makes devices of exactly the descriptions whose name is known neither before nor earlier in the list, each with exactly what was given; every device there was is as it was |
| DeviceCalls.ReplaceAgreesIff | device-sdk-c/src/c/devmap.c:211-230 | Replacing leaves the indexes in agreement exactly when the name of the device is not stored under another id |
| DeviceCalls.PopulateCountsIff | device-sdk-c/src/c/devmap.c:106-118 | Populating with any list leaves counts and maps right exactly under that condition, whether the indexes agreed before or not: otherwise a device out of the map keeps a reference that nobody holds |
| DeviceCalls.PopulateAgreesIff | device-sdk-c/src/c/devmap.c:106-118 | Populating with any list leaves the indexes in agreement exactly when, taking the list in order, each device whose name is not known by then has an id not known by then |
| DeviceRuns.ProfileReplaced | device-sdk-c/src/c/devmap.c:288-293 | A run from the empty map to a state with the lock free and the indexes in agreement where storing another profile object under the profile name of a device ends the agreement |
| DeviceRuns.NameTaken | device-sdk-c/src/c/devmap.c:211-230 | A run to such a state where replacing under a new id a device whose name is known ends the agreement |
| DeviceRuns.IdTaken | device-sdk-c/src/c/devmap.c:106-118 | A run to such a state, and the run of a call that populates with a new name for a known id: the device that had the id is then lost, live and counted with neither map, holder nor thread leading to it |
| DeviceRuns.LostForever | device-sdk-c/src/c/devmap.c:327-335 | A lost device is never freed, whatever steps follow |
| DeviceRuns.StaleNameCrashes | device-sdk-c/src/c/devmap.c:248-286 | After that call, removing the id and looking the first name up, each harmless in itself, follow a null pointer: a whole run that ends so |
| DeviceRuns.ReplaceIsARun | device-sdk-c/src/c/devmap.c:211-230 | From every reachable state with the lock free, what the replace method computes is a run of one thread of the state machine |
| DeviceRuns.PopulateIsARun | device-sdk-c/src/c/devmap.c:106-118 | The same for populating, with any number of devices |
| DeviceRuns.RemoveByNameIsARun | device-sdk-c/src/c/devmap.c:264-277 | The same for a removal, including the freeing |
| DeviceRuns.RemoveByIdIsARun | device-sdk-c/src/c/devmap.c:279-286 | The same for a removal by id, whose run ends in the null pointer when the id is absent |
| DeviceRuns.AddProfileIsARun | device-sdk-c/src/c/devmap.c:288-293 | The same for adding a profile |
| DeviceRuns.DeviceByIdIsARun | device-sdk-c/src/c/devmap.c:232-246 | The same for a lookup by id, with the reading lock free of a writer |
| DeviceRuns.DeviceByNameIsARun | device-sdk-c/src/c/devmap.c:248-262 | The same for a lookup by name |
| DeviceRuns.ForCommandIsARun | device-sdk-c/src/c/devmap.c:295-325 | The same for handing out all devices for a command under one read lock |
| DeviceRuns.ReleaseIsARun | device-sdk-c/src/c/devmap.c:327-335 | The same for a release, with the freeing of the last reference |
| Base64.EncodedIsText | device-sdk-c/src/c/base64.c:101-167 | Against the literal table of section 4 of RFC 4648: for all bytes, the text before its padding, read as a numeral to base 64 by index in the table, is the numeral of the bytes to base 256, shifted by the unused bits of the last letter; its length and padding are as the RFC says |
| Base64.DecodedAreBytes | device-sdk-c/src/c/base64.c:56-99 | Against that table: a text is accepted exactly when nothing but its letters and line breaks precede the end or the first pad, and what is decoded are the bytes of its numeral, as many as its letters fill |
| Base64.BytesOfText | device-sdk-c/src/c/base64.c:56-99 | The text of some bytes is such a text, and its bytes are those and no others |
| Base64.DecodeUndoesEncode | device-sdk-c/src/c/base64.c:56-167 | Decoding the text of any bytes gives them back (section 4 of RFC 4648) |
| Base64.MaxDecodeSizeSuffices | device-sdk-c/src/c/base64.c:46-50 | For every text at all, the computed maximum is never smaller than what is decoded |
| Base64.EncodedLength | device-sdk-c/src/c/base64.c:39-44 | The computed size is that of the text and its terminator; the text is a multiple of four, padded with = only at the end |
| Base64.LineBreaksAreIgnored | device-sdk-c/src/c/base64.c:66-70 | A line break inserted anywhere changes nothing |
| Base64.Encode | device-sdk-c/src/c/base64.c:101-167 | Succeeds exactly when the buffer has the computed size; then it holds the terminated text of the bytes by the table of the RFC, and nothing else is touched |
| Base64.Decode | device-sdk-c/src/c/base64.c:56-99 | Succeeds exactly when only letters of the table and line breaks precede the end or the first pad and the bytes fit; then exactly the bytes of the numeral are written and their number reported, and nothing past the capacity is ever touched |
| Queue.Queue.EnQueue | random/user_queue.c:36-58 | Appends the item, first dropping the oldest when the queue is full; the list stays linked, its size exact and its rear last |
| Queue.Queue.DeQueue | random/user_queue.c:101-125 | Takes the oldest item, or nothing from an empty queue |
| Queue.Queue.ReadQNode | random/user_queue.c:69-74 | Shows the oldest item and leaves the queue as it is |
| Queue.Queue.ClearQNode | random/user_queue.c:76-91 | Removes the oldest item, if any |
| Queue.Queue.SizeQueue | random/user_queue.c:93-100 | Reports the number of items modulo 2^16, which is 0 for the 65536 items a queue of capacity 0 can hold |
| Queue.NothingIsLost | random/user_queue.c:36-125 | For every sequence of operations and every capacity: what has left the queue followed by what is in it is what entered it, in order; it never holds more than its bound (65536 for capacity 0); an item is dropped only after that many later ones have entered |
| Queue.HoldsTheLast | random/user_queue.c:36-58 | Items that enter while none is taken: the queue holds exactly the last of them, as many as its bound allows |
| Queue.CapacityZeroHolds65536 | random/user_queue.c:36-58 | A run after which a queue of capacity 0 holds 65536 items |
| ReplyMatching.FillReadings | random/user.c:378-417 | The loop over the requests yields one reading per request, each standing for its field (a string itself; a boolean by its word in any case; a binary value as the bytes of its Base64 text), or refuses exactly when some field can stand for nothing of its type; a missing value is reported as undefined |
| ReplyMatching.ReplyReadsAs | random/user.c:51-115 | For every reply exactly one result is right by what its fields stand for, and it is the one computed |
| TypedExchange.ReadBack | random/user.c:378-439 | The whole exchange: after a PUT whose last setting gives the switch a value, a GET of it, carried out by both ends, is not answered exactly when the value is empty; otherwise it is read as true or false exactly when the value spells that in any case, as the value itself for a string, as the bytes whose Base64 text it is for a binary value, and refused otherwise |
| ReplyMatching.RunKeeps | random/device-random.c:234-277 | The invariant on the queue of replies and the calls at it holds after every interleaving of arrivals, calls and polls |
| ReplyMatching.OnlyOwnReplies | random/device-random.c:255-277 | In every run a reply is given to a call only if its name field is the device that call asked, and what that call returned is what its values read as |
| ReplyMatching.OneReplyEach | random/device-random.c:255-277 | Each reply goes to at most one call, and each successful call is given exactly one, in the same order; no two of the calls that return are the same call |
| ReplyMatching.RepliesAreConserved | random/device-random.c:42-72 | While no call has read outside a frame: replies given or dropped, followed by those queued, are the replies received, in order; a reply is dropped only when the queue is full of later ones |
| ReplyProgress.EveryCallReturns | random/device-random.c:255-277 | Unless a call reads outside a frame first, a named call that is polled once more than its countdown returns by one of these polls, whatever the other threads do: with the readings of the reply then at the front, or without any once its countdown has run out |
| ReplyProgress.ReplyDeliveredIff | random/device-random.c:255-277 | In every reachable state, the next poll of a call gives it a reply exactly when its countdown has not run out and reply number n of those received, where n have left the queue, names its device and has values it can read; it returns those readings |
| ReplyProgress.FrontMovesIffWanted | random/device-random.c:255-277 | Some sequence of polls changes the queue (or reads outside a frame) exactly when some call with countdown left would not refuse the reply at the front |
| ReplyProgress.UnwantedBlocks | random/device-random.c:234-277 | With no such call, and none starting, everything stays queued behind that reply through any arrivals, new calls and polls until the queue overflows |
| ReplyProgress.StrangerAtFront | random/device-random.c:234-277 | A run that gets there: one call, and a reply of another device |
| ReplyProgress.StaleIffQueued | random/device-random.c:234-277 | A call can ever be given a reply that was received before it began exactly when a reply it can read is queued when it begins; otherwise what it gets was received later |
| ReplyProgress.LateReplyGoesToNextCall | random/device-random.c:234-277 | A run that gets there: a call gives up, its reply arrives late, and the next call for that device is given it |
| ReplyMatching.NeverUndefined | random/user.c:378-417 | If every reply has a value for each reading of every call to its device, no poll reads outside a frame |
| Frames.Cursor.Take | random/structString.h:13-21 | Takes the text up to the next # and moves the pointer past it; undefined exactly when there is none |
| Frames.FillValues | random/structString.h:40-67 | The loops fill the values with the fields after the first value#, or report what is missing |
| Frames.ReadEvent | random/structString.h:22-39 | The calls in sequence compute the specified event |
| FrameFacts.EventIsRead | random/structString.h:22-67 | Every frame of clean fields is taken apart without reading outside it; name, origin and command always come back, and the values read are those after the first field that ends in "value" |
| FrameFacts.EventComesBack | random/structString.h:22-67 | The event comes back exactly when neither name nor command ends in "value", or the values happen to repeat the fields taken for them |
| FrameFacts.NameEndingInValue | random/structString.h:40-67 | A device named setvalue that sends 30 is read as sending its origin: a witness |
| DeviceScript.Device.SetValue | demo/device.py:65-75 | Splits at the first colon and assigns the switch when it is named |
| DeviceScript.Device.SetArrValues | demo/device.py:77-79 | Applies every assignment, in order |
| DeviceScript.Device.GetArrValue | demo/device.py:92-100 | Joins the readings in order; one that is empty empties the answer |
| DeviceScript.Device.PushEdgex | demo/device.py:114-124 | The text pushed, or nothing when a reading is empty |
| DeviceScript.Device.RepGet | demo/device.py:132-146 | The reply published, with the size echoed, or which exception ends it |
| DeviceScript.Device.RepPut | demo/device.py:126-130 | The first size assignments are applied and no others |
| DeviceScript.Device.RepAddDevice | demo/device.py:107-112 | The name changes only for a matching name and MAC |
| DeviceScript.Device.Receive | demo/device.py:148-163 | Dispatch by letter; a message for another device changes nothing |
| FrameRoundTrip.GetHandlerWrite | random/user.c:362-376 | Writes the frame of the joined names, exactly when they stay below 100 bytes, and never overruns the buffer it allocates for it |
| FrameRoundTrip.PutHandlerWrite | random/user.c:419-439 | The same for resources with values |
| FrameRoundTrip.FrameSplits | demo/device.py:148-151 | A frame of clean fields splits into them and its count selects exactly the fields after it, whatever follows the frame |
| FrameRoundTrip.AssignmentOfSetting | demo/device.py:65-69 | The device recovers resource and value exactly when the resource name holds no colon |
| FrameRoundTrip.PutArrives | random/user.c:419-439 | From the settings of a PUT call to the device: its switch ends with the last value sent for it |
| FrameRoundTrip.GetIsAnswered | demo/device.py:132-146 | A GET frame is answered with the readings asked for, in order, unless one is empty or none is asked |
| FrameRoundTrip.ReplyIsRead | random/structString.h:22-67 | The whole exchange: the readings the service takes from the reply are those the device gave, when its name does not end in "value" |
| FrameRoundTrip.PushIsRead | random/structString.h:22-67 | A pushed event reaches the service with its command and values |
| Transform.SetLLInt | device-sdk-c/src/c/transform.c:76-140 | Stores a number exactly when it is in the range of the type, and otherwise changes nothing |
| Transform.TransformOutgoing | device-sdk-c/src/c/transform.c:163-196 | The steps in order compute the specified result and write it, or "overflow", into the reading |
| Transform.TransformIncoming | device-sdk-c/src/c/transform.c:228-256 | The steps in order compute the specified result and write it, or refuse it and leave the setting |
| Transform.MaskKeepsBits | device-sdk-c/src/c/transform.c:171-195 | With only a mask on, whatever its sign, a number that is reported has bit k set exactly when the reading and the mask have it set, for every k below 64 |
| Transform.TruncDivIs | device-sdk-c/src/c/transform.c:239-240 | The division of a setting by the scale rounds toward zero: the remainder is smaller than the divisor and never has the sign opposite to the dividend |
| Transform.OutgoingIsExactOrOverflow | device-sdk-c/src/c/transform.c:171-195 | With no base, for every mask, shift, scale and offset: what is reported is the number meant (the true reading masked, shifted, scaled and moved without wrapping), or "overflow" when that is outside the type, exactly when the masked reading is below 2^63, or the scale is 0, or the number computed from the wrapped reading is negative and the number meant is outside the type as well |
| Transform.WrongNumberIff | device-sdk-c/src/c/transform.c:171-195 | A number that is not the one meant goes out, and not "overflow", exactly when the masked 64-bit unsigned reading is 2^63 or more, the scale is not 0, and the number computed from the wrapped reading is not negative |
| Transform.WrongNumbers | device-sdk-c/src/c/transform.c:171-195 | 2^64 - 5 with offset 10 is reported as 5, and so is 2^64 - 5 with scale -1: inputs that show it |
| Transform.OutgoingIsComputed | device-sdk-c/src/c/transform.c:171-195 | Where the steps are defined, they report the number computed from the reading as a signed 64-bit number, or "overflow" when it is outside the type |
| Transform.IdentityArguments | device-sdk-c/src/c/transform.c:60-74 | With arguments that change nothing, a 64-bit unsigned reading is preserved exactly when it is below 2^63 and reported as "overflow" otherwise |
| Transform.IncomingUndoesScaling | device-sdk-c/src/c/transform.c:163-256 | For every mask, shift, base, scale and offset: what was reported, sent back, gives the reading exactly when the reading is below 2^63, the scale is not 0, and undoing base and shift on the prepared reading gives it; division and offset always cancel |
| Transform.OutgoingUndoesScaling | device-sdk-c/src/c/transform.c:163-256 | For every such choice: what was set, reported back, gives the setting exactly when it is below 2^63, the scale divides it after the offset, and mask, shift and base give the quotient back |
| Transform.IncomingUndoesOutgoing | device-sdk-c/src/c/transform.c:163-256 | With no base, and any mask: what was reported, sent back, gives the reading exactly when it is below 2^63, the scale is not 0, and the bits kept by mask and shift are all of it; without a mask, when no set bit was shifted out to the right |
| Transform.OutgoingUndoesIncoming | device-sdk-c/src/c/transform.c:163-256 | With no base, and any mask: what was set, reported back, gives the setting exactly when it is below 2^63, the scale divides it after the offset, and mask and shift give the quotient back; without a mask, when no set bit was shifted out |
| CommandIndex.IndexAgreesWithDirectSearch | device-sdk-c/src/c/device.c:264-324 | The first match in the cached list is the first command of that name with operations in that direction, or, if no command has that name, the first readable or writable resource of that name, else nothing |
| CommandIndex.FoundDescribes | device-sdk-c/src/c/device.c:216-308 | What is found is right in itself: for a command, one request for each of its operations, in order, with the first resource of the name of the operation, its type and the mappings of the operation; for a resource without a command, one request for it without mappings |
| CommandIndex.SearchOfPart | device-sdk-c/src/c/device.c:264-324 | A search of the part of the list built so far finds what a search of the profile finds if that part has an entry of the name and direction, and else nothing, so a second thread that searches during the building can miss a command but never find a wrong one |
| CommandIndex.IndexIsDefined | device-sdk-c/src/c/device.c:216-244 | The list can be built exactly when every operation names a resource of the profile |
| CommandIndex.Profile.NewInfoForRes | device-sdk-c/src/c/device.c:216-244 | An entry lists the resources of the operations in order |
| CommandIndex.FindDevResource | device-sdk-c/src/c/device.c:206-214 | Finds the first resource of a name |
| CommandIndex.Profile.PopulateCmdInfo | device-sdk-c/src/c/device.c:264-308 | Appending through the moving head builds the index: commands first, get before set, then resources without a command |
| CommandIndex.Profile.FindCommand | device-sdk-c/src/c/device.c:310-324 | The search, which builds the list on first use and keeps it, gives what a direct search of the profile gives, with requests that carry the resources and mappings of its operations |

## Left out

- JsonReading.SpelledIsRead: takes strtod as a parameter, assumed to read an optional minus sign and decimal digits up to the last one when no digit, point, exponent or hexadecimal marker follows (`ReadsIntegers`); asks that the names within each object differ, as a repeated name fails the parse.
- JsonSpelled.AcceptedTextIsSpelled: does not cover floating numbers, whose texts are whatever strtod consumes; nor the bare minus sign, for which `JsonParseFacts.BareMinusIsZero` is exact.
- JsonRoundTrip.PrintThenParse: does not cover floating numbers, because strtod and the %1.17g of sprintf belong to the C library; both are parameters. An integral double prints without a point and reads back as an integer.
- JsonRoundTrip.PrintedInteger: is about printing first; a negative integer in a text is read as its value modulo 2^64, as strtoull does (`JsonGrammar.IntegerOf`).
- JsonEquals.ChainsIffNumeralFree: takes floating numbers, and integers compared with them, as real numbers; the rounding of doubles, which joins or parts neighbours of large magnitude, is not modelled, so an integer such as 2^60 behaves differently in C.
- JsonSerializer.SerializationSize: asks that the length of the text fit an int, as the C counter must.
- JsonSerializer.SerializeToString: takes the allocation to succeed, as all of the JSON model does; the growth of the capacity of objects and arrays is not modelled either.
- JsonStore.Node.RemoveValue: does not follow the removed subtree, which the C code frees; so with the value an overwriting set replaces.
- JsonStore.Node.DotSetValue: once a set has closed a cycle, says only that it did: no later call on such a structure is modelled, and freeing it would not end.
- Comments, files, json_validate and schema checks of Parson, and the copy of Parson in device-sdk-c/src/c, which lacks exact integers.
- HashMap.HashMap.Set: counts nodes and buckets in unbounded numbers; the C counters are unsigned ints, and keys and values are one allocation each.
- HashMapIteration.ClearAll: models the removal loop of edgex_devmap_clear on the map of devices; it runs when the service stops, takes no lock and leaves the name index behind, so the theorems on the device map do not cover states after it.
- DevMapInvariant.RunKeeps: takes of the metadata service what `DevMap.Harmless` says of a call: a removed id is present, and a populated device with an unknown name has an unknown id at its turn. `DevMapSafety.RemoveByIdCrashesIff` and `DeviceCalls.PopulateCountsIff` show that each is needed; after a call that breaks it, only `DeviceRuns.LostForever` and `DeviceRuns.StaleNameCrashes` speak.
- DevMapIndexes.RunAgrees: takes what `DevMap.Permitted` says as well: a name is not moved to another id, and an added profile name is new. `DeviceCalls.ReplaceAgreesIff` is the exact condition for one replacement; for one profile it is that of `DevMapSafety.AddProfileKeepsIff`, which is weaker than a new name.
- DevMapSafety.NothingDangles: does not order the fields of one device written in place against readers that use a device they hold without the lock. The macro edgex_map_get also stores what it found in a field of the map (device-sdk-c/src/c/map.h:38), which two holders of the read lock write at once; the model takes a lookup as a read.
- DeviceTable.DeviceMap.RemoveDeviceById: for an absent id reports it and leaves the data as they were, where C dereferences a null pointer; `DeviceRuns.RemoveByIdIsARun` ends in the crash.
- DeviceTable.DeviceMap.DevicesForCommand: takes the order of the iterator (`HashMapIteration.AllKeys`) and which profile objects have the command as parameters; the search of a profile is `CommandIndex`.
- DeviceTable.DeviceMap.ReplaceDevice: reassigns maps from addresses to devices where the C code writes through pointers; the hash maps underneath are those of `HashMap`.
- Automatic events: starting and stopping them, and the references their scheduler holds; the lists of devices and profiles copied out of the map.
- Base64.Decode: keeps numbers unbounded; at most 24 bits are ever put together, so the 32-bit word of the C code never overflows. The sizes are assumed not to wrap.
- ListCompare.CompareLists: counts in unbounded numbers where the C code counts in unsigned ints.
- Queue.Queue.EnQueue: takes the mutex of each operation as what makes it one step, and allocation to succeed.
- ReplyMatching.RunKeeps: takes a thread's lock, read, parse, remove and unlock as one step, which the mutex makes them; sleeping and the queue of requests on their way out are not modelled.
- ReplyMatching.FillReadings: sscanf of the numeric types and the Base64 form of floating values are a parameter; strings, booleans and binary values are concrete.
- Frames.ReadEvent: takes atoi of a number that does not fit an int as undefined, and so a negative number of values, which the code that frees the event runs away on.
- TypedExchange.ReadBack: takes the reading of numeric types as that same parameter, and asks what the exchange of frames asks.
- DeviceScript.Device.RepGet: the numbers drawn at random are parameters; underscores in the text of a size, which Python's int accepts, are not modelled.
- FrameRoundTrip.PutArrives: asks that names and values hold no '#' and resource names no ':'; the discovery frames that add a device are modelled on the device's side only.
- Transform.IncomingUndoesScaling: takes powl and logl as parameters of the model, with results that are 64-bit integers, so with a base it says what undoing must give and not when it does. Left shifts out of 64 bits and counts of 64 or more are undefined, a left shift of a negative number multiplies, a right shift of one rounds down.
- Transform.OutgoingIsExactOrOverflow: does not cover a base, whose power the C library computes.
- Transform.TransformOutgoing: covers the integer types; floating transforms and the mapping of strings are left out.
- CommandIndex.Profile.PopulateCmdInfo: reads the resources, commands and operations as sequences, which are never changed; only the list that is built is linked.
- CommandIndex.Profile.FindCommand: is one thread. The list is built under a shared read lock, so two threads that both find no list can build it at once, and what the head and the links then are is not modelled; `CommandIndex.SearchOfPart` says what a search of a list that one other thread is still building finds.
- Network, serial port, files, YAML, TOML, logging, metrics and the JSON form of service structures.
