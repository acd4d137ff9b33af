# PServer: verified model of its stateful core

PServer is a small C++ game server with a Lua front end. This project models the four parts of it
that carry state across calls, and proves what each promises.

**The run-time type registry** (`swig_wrap.cpp`). Every wrapped module publishes a table of types and,
for each type, a list of casts. Modules hang on a circular list; a type name that several modules use
is one shared object; cast lists reorder themselves on every lookup; and *client data* given to one
type spreads along the casts that need no conversion. `TypeNames`, `CastLists`, `ClientData`,
`ModuleRing`, `CastMerging`, `TypeRegistry`, `Interpreter` and `Propagation` follow that code on a heap
of objects with their real pointer fields; ghost fields (`casts`, `owner`, `table`, `ring`, `registry`)
carry the sequences and maps that the pointers stand for. `HexData` is the printer and parser for raw
pointers beside it.

**Message framing** (`net_message.cpp`, and the socket callers in `net_server.cpp`). `Framing` is the
reference: a parser that cuts a byte stream into frames. `Fields` is the reference for message bodies.
`NetMessage` is the class with its four fields and its 16-bit cursors, `Sockets` a stream socket whose
every call moves as many bytes as the system likes, and `Connection` the sending and the receiving half
of one connection. The constants are the ones in `const_define.h` (maximum 0xFFFF, header 4, type at 2).

**The package queue** (`net_packlist.cpp`). `PackageList` is a step system with any number of threads,
in which a consumer takes its token before it takes the lock and a producer posts after it has pushed,
and a class whose methods are those steps.

**The hash table** (`hash_table.h`). `HashTable` is the array of chains with its pointer surgery, proved
to be a finite map.

`CStrings` and `Words` hold the shared vocabulary: C strings, bytes and 16-bit words.

## Where the code falls short of what it is for

Each of these is a lemma or a postcondition with the exact condition, on all inputs.

- `SWIG_TypeNameComp` lets its cursors pass the ends of two names exactly when both end in spaces and they
  are equal up to spaces (`NamesRunPastEndExactly`; `RunsOffExactly` for pieces of a longer list). When just
  one ends in spaces it stays in range but can give the wrong sign: a name compares correctly with every
  name without a trailing space exactly when it has none itself (`OrderedExactlyWithoutTrailingSpace`).
  Searching a list of alternatives leaves a range exactly when an alternative that ends in spaces does so
  before one matches (`EquivExactly`).
- A node whose cast leads to a type that is already loaded, in a row whose own type is already loaded
  too, keeps its own module's copy of that type when it is added; the target is the registered type
  exactly when one of the two is new (`CanonicalTargetExactly`).
- The send cursor has 16 bits while `Append` lets a buffer grow to nearly twice that. A buffer survives
  every way of sending it in pieces exactly when it has at most 65535 bytes (`BufferSurvives`); one send
  loses or repeats bytes exactly when it moves the cursor past 65535 (`Send`, `OnSend`); `OverrunBuffer` is such a
  run of the server's own calls.
- `SendMsg` drops the rest of a message that was sent in part when `errno` does not happen to say
  EAGAIN; a successful `send` does not set it (`SendMsg`). With `clearOld` it tears the stream exactly when the
  buffer it throws away was sent up to the middle of a message (`Discard`).
- Once the header is in, the receive buffer has room for it, and still holds the length field that the next
  test reads, exactly when the field is at most 0xFFFB (`HeaderSurvives`, `Recv`). From 0xFFFC on the sum with
  the header length wraps and the buffer shrinks to at most 3 bytes; 0xFFFC and 0xFFFD lose the length field
  itself (`OverflowingHeaders`). While the header comes in, `RecvDone` is wrongly true exactly when the field
  announces 65536 more than the bytes held, that is for 0xFFFE with 2 bytes and 0xFFFF with 3. The check
  `GetLength() > NETMSG_MAX_LEN` never fires: the left side is a 16-bit value.
- A string written empty, or with a length that is a multiple of 65536, leaves the variable it is read
  into as it was (`FieldsReturnExactly`).
- `DelMsg` takes messages out without their tokens, so a `GetMsg` may find a token and no message. The
  surplus is exactly the deletions less those empty wake-ups (`StepAccounts`).
- A request for at most 0 or more than 2^20 buckets gets 2^21 (`TableSize`).

## Model

| member | source | states |
|---|---|---|
| CStrings.CompareIsLexicographic | swig_wrap.cpp:571-571 | the comparison of whole names is that of strcmp: less exactly for a proper prefix or a smaller character at the first difference |
| TypeNames.StripDeletesSpaces | swig_wrap.cpp:368-377 | deleting the spaces, the meaning of a name here, takes each space and nothing else |
| TypeNames.TypeNameComp | swig_wrap.cpp:368-377 | the loop over two ranges returns the comparison `NameComp` gives, and reports exactly when it would read past a range |
| TypeNames.NameCompIsOrder | swig_wrap.cpp:368-377 | without trailing spaces the comparison stays inside both ranges, and its sign is the string order of the names with all spaces deleted |
| TypeNames.NameCompLaws | swig_wrap.cpp:368-377 | so it is zero exactly for names equal up to spaces, antisymmetric and transitive |
| TypeNames.OrderedExactlyWithoutTrailingSpace | swig_wrap.cpp:368-377 | a name compares correctly with every clean name if and only if it has no trailing space itself |
| TypeNames.NamesRunPastEndExactly | swig_wrap.cpp:368-377 | two names run past their ends if and only if both end in spaces and they are equal up to spaces |
| TypeNames.RunsOffExactly | swig_wrap.cpp:368-377 | the same for a piece of a longer string, where the character behind the piece counts as well |
| TypeNames.ZeroExactly | swig_wrap.cpp:368-377 | the result is zero if and only if neither range ends in a space and they are equal up to spaces |
| TypeNames.TrailingSpacesRunPastEnd | swig_wrap.cpp:368-377 | one such pair |
| TypeNames.TypeEquiv | swig_wrap.cpp:383-396 | the scan of the alternatives terminates with the answer `EquivFrom` gives |
| TypeNames.EquivMatchesAlternatives | swig_wrap.cpp:383-396 | for clean alternatives and any name the answer is 1 if and only if the name is clean and some alternative has the same characters apart from spaces, and 0 otherwise |
| TypeNames.EquivExactly | swig_wrap.cpp:383-396 | for all C strings: the scan leaves a range if and only if an alternative that ends in spaces does so before one hits, and otherwise answers 1 if and only if the name and some alternative end in no space and are equal up to spaces |
| TypeNames.StaysInsideWhen | swig_wrap.cpp:383-396 | it leaves none when the alternatives are clean, or the name is clean and has no bar |
| TypeNames.AlternativesSplit | swig_wrap.cpp:383-396 | the scanned alternatives are the pieces between the bars, and an empty piece behind a final bar is not scanned |
| TypeNames.AlternativesAtBars | swig_wrap.cpp:383-396 | what stands before the first bar is the first alternative, and the rest are those of what stands behind it |
| HexData.PackData | swig_wrap.cpp:631-642 | writes two hexadecimal digits a byte and nothing else |
| HexData.PrintIsHex | swig_wrap.cpp:636-640 | byte i prints as two digits of 0123456789abcdef, the high half first |
| HexData.UnpackData | swig_wrap.cpp:647-670 | succeeds if and only if the next 2*sz characters before the terminator are digits; stores what they mean; nothing behind the terminator matters; on failure what is stored is the parse of the digits before the bad character |
| HexData.ParsePrint | swig_wrap.cpp:631-670 | unpacking packed bytes gives them back, for every length |
| HexData.PrintParse | swig_wrap.cpp:631-670 | any text that unpacks is what packing the result prints |
| HexData.ParsesDigits | swig_wrap.cpp:647-670 | texts of even length made of lower-case digits, and no others, unpack |
| HexData.MasksAreDivision | swig_wrap.cpp:636-640 | masking and shifting an unsigned char is division and remainder by 16, on all bit patterns |
| HexData.PackVoidPtr | swig_wrap.cpp:675-684 | succeeds if and only if text and terminator fit in bsz, that is 18 characters and the name, and writes nothing from bsz on |
| HexData.PackDataName | swig_wrap.cpp:699-712 | the same for data of any size with an optional name |
| HexData.UnpackDataName | swig_wrap.cpp:686-725 | returns the place of the name if and only if an underscore and enough digits come first, treats NULL apart, and leaves the buffer behind sz alone |
| HexData.TextMeans | swig_wrap.cpp:675-712 | the text of the wrappers is an underscore, the digits and the name |
| HexData.TextRoundTrip | swig_wrap.cpp:675-725 | what the wrappers print is read back as the same bytes and the same name |
| CastLists.MoveToTop | swig_wrap.cpp:428-436 | unlinking a node and putting it in front leaves a well-formed doubly linked list in that order |
| CastLists.TypeCheck | swig_wrap.cpp:421-443 | returns the first node whose type has the name and puts it in front, all others in the order they had; or null, with the list as it was, if and only if no node has that name; the list stays well-formed |
| CastLists.TypeCheckStruct | swig_wrap.cpp:448-470 | the same for a type instead of a name |
| CastLists.MoveToFrontKeeps | swig_wrap.cpp:428-436 | moving to the front keeps the nodes, their multiplicity and the order of the others |
| CastLists.LookupsAreTransparent | swig_wrap.cpp:421-470 | on sequences with unique keys, any sequence of lookups answers as on the one that was never reordered |
| CastLists.AnswerIsMembership | swig_wrap.cpp:421-470 | and the answer for a key is the one entry with that key |
| CastLists.LookupIgnoresOrder | swig_wrap.cpp:421-470 | on cast lists whose types have distinct names, a lookup by name or by type has the same answer in every order of the nodes |
| CastLists.CheckAll | swig_wrap.cpp:421-470 | any series of TypeCheck and TypeCheckStruct calls on one list answers, throughout, as on the list before the first, and keeps it well-formed with the same nodes |
| CastLists.ChecksAgree | swig_wrap.cpp:421-470 | lookup by name and by type find the same node when the name determines the type among the casts |
| ClientData.TypeClientData | swig_wrap.cpp:527-542 | on any cast graph, cycles included, terminates with the data set on exactly the types reached from ti through types that had none, and changes no other type |
| ClientData.ReachedIsLeast | swig_wrap.cpp:527-542 | the types reached are the least set that holds ti and, for each of its types, the targets of all casts without a converter that had no data |
| ClientData.VisitCast | swig_wrap.cpp:533-541 | one cast is followed if and only if it needs no conversion and its type has no data yet |
| ClientData.CheckIn | swig_wrap.cpp:421-470 | a lookup in one list leaves all other lists and the cast graph as they are |
| Reachability.NestedSearch | swig_wrap.cpp:527-542 | the set a recursive call marks extends the set marked so far to a set reached from the caller |
| Reachability.SearchDone | swig_wrap.cpp:527-542 | when every cast has been followed, the marked set is exactly the reachable set |
| Reachability.ReachableInClosed | swig_wrap.cpp:527-542 | reachability is the least set closed under the casts |
| ModuleRing.SearchTable | swig_wrap.cpp:563-587 | binary search of a sorted table finds the entry of that name if there is one, without unsigned underflow |
| ModuleRing.MangledTypeQueryModule | swig_wrap.cpp:557-591 | walks from start to end, the full ring when they are equal, and returns the first entry of that name, or null if and only if no visited module has a type of that name |
| ModuleRing.ScanTable | swig_wrap.cpp:612-620 | returns the first entry for which the scan of its human-readable names answers 1, or null when it answers 0 for all of them; defined whenever no comparison leaves its range |
| ModuleRing.TypeQueryModule | swig_wrap.cpp:602-626 | when some visited module has the mangled name, returns a type of that name; otherwise a type whose human-readable names match the query in the sense of SWIG_TypeEquiv, or null when no visited type matches; defined whenever no comparison of the fallback leaves its range |
| ModuleRing.TrailingSpaceFindsNothing | swig_wrap.cpp:612-620 | a query that ends in a space matches no human-readable name, and clean tables can always be scanned for it |
| TypeRegistry.FindsIsLookup | swig_wrap.cpp:557-591 | on modules that publish a registry, a ring search is a lookup in one map |
| TypeRegistry.Loaded | swig_wrap.cpp:2118-2121 | the search from the next module round to this one is that lookup |
| TypeRegistry.ChooseType | swig_wrap.cpp:2118-2136 | the registered type of the name is taken, else the module's own; it ends up with the data of the module's own type when that is not null, and keeps what it had otherwise |
| CastMerging.Prepend | swig_wrap.cpp:2174-2183 | pushing a node keeps the list well-formed |
| CastMerging.AttachCast | swig_wrap.cpp:2157-2184 | the three cases of merging one cast: retarget and add, skip as already there, add |
| CastMerging.AttachMeans | swig_wrap.cpp:2157-2184 | the merged list: the new cast in front, or, when both ends were loaded and the name is there, the old node moved to the front and nothing added |
| CastMerging.OwnRowIsReversed | swig_wrap.cpp:2142-2185 | a type that is new gets its whole row, last cast first |
| CastMerging.RowKeeps | swig_wrap.cpp:2142-2185 | merging a row drops no node of the list and adds only nodes of the row, each at most once |
| CastMerging.RowNames | swig_wrap.cpp:2142-2185 | afterwards the list leads to exactly the names it led to before and the names of the row |
| CastMerging.RowStaysUnique | swig_wrap.cpp:2157-2171 | and to each of them only once |
| CastMerging.RowUniqueExactly | swig_wrap.cpp:2157-2184 | for any row, repeated targets included: the merged list has unique targets if and only if no cast that is always added repeats the target of an earlier one |
| TypeRegistry.LoadCast | swig_wrap.cpp:2142-2184 | one round of the cast loop, search included, attaches the cast as the specification says and touches no node that is still to come |
| TypeRegistry.LoadRowIn | swig_wrap.cpp:2142-2185 | the whole cast loop changes one list, to the merged one, and no client data |
| TypeRegistry.LoadType | swig_wrap.cpp:2114-2187 | one round of the type loop: the chosen type, its list, its data and the targets of its row |
| TypeRegistry.LoadNext | swig_wrap.cpp:2114-2188 | keeps the statement of how far the load is |
| TypeRegistry.FillTypes | swig_wrap.cpp:2114-2189 | the table ends up as the registered type, or the module's own, for each name, sorted and terminated |
| Interpreters.Interpreter.Search | swig_wrap.cpp:2086-2094 | the walk round the ring finds the module if and only if it is loaded |
| Interpreters.Interpreter.Link | swig_wrap.cpp:2099-2101 | splicing a module in leaves one cycle of exactly the old modules and the new one, which stands right behind the head; the head stays and so do all other links |
| Interpreters.Interpreter.InitializeModule | swig_wrap.cpp:2059-2189 | keeps the ring one cycle, the tables sorted, one type for each name and all cast lists well-formed, and the lists free of duplicates when the rows of the new module are. A loaded module is left untouched, and so is all data. For a new one: the head stays; each entry of its table is the registered type or the module's own, with the module's data or else its own, the targets it had and those of its row; casts of new types point to registered types; types of other names keep data and casts |
| Interpreters.Interpreter.constructor | swig_wrap.cpp:2079-2083 | an interpreter without modules satisfies all of that: where any sequence of loads starts |
| Interpreters.Interpreter.CheckCast | swig_wrap.cpp:421-470 | lookups between loads keep all of that |
| Interpreters.Interpreter.TypeClientData | swig_wrap.cpp:527-542 | so does setting data: the types reached get it, all others keep theirs, and the types reached are the least set closed under casts without a converter to types that had none |
| Interpreters.Interpreter.PropagateClientData | swig_wrap.cpp:2213-2234 | so does propagating it: data is kept; a type that gains data has that of a type of the table that reaches it; afterwards the types of the table, and those that gained data, lead to types with data only; later runs change nothing |
| Interpreters.Interpreter.MangledTypeQuery | swig_wrap.cpp:557-591 | after any sequence of loads a query over the whole ring gives the same answer from any start: the one registered type, or null exactly when no loaded module has the name |
| Interpreters.Interpreter.OneTypePerName | swig_wrap.cpp:2114-2189 | two entries of any loaded modules are the same type object if and only if they have the same name |
| Interpreters.RoundTripFrom | swig_wrap.cpp:557-591 | from any module of the ring the walk visits every module once |
| Interpreters.ExtendKeeps | swig_wrap.cpp:2114-2136 | a load changes the type of no name that was there |
| Interpreters.ExtendCovers | swig_wrap.cpp:2114-2136 | and registers exactly the names of the module besides |
| Interpreters.ExtendResolves | swig_wrap.cpp:2118-2136 | the entry the loader chooses for a name is the registered type of that name after the load |
| Interpreters.PublishedByLoad | swig_wrap.cpp:2114-2189 | equal names in any two loaded modules, the new one included, are the same type object |
| Interpreters.ListTakesItsRow | swig_wrap.cpp:2142-2185 | each type's list is merged with its own row and no other |
| Interpreters.ListStaysTidy | swig_wrap.cpp:2157-2171 | a load leaves every list with unique, registered targets |
| Interpreters.DataTakesItsTurn | swig_wrap.cpp:2122-2133 | after a load each type of the table has exactly the data the module gives it when that is not null, and what it had before when it is |
| Interpreters.DataWaitsItsTurn | swig_wrap.cpp:2122-2133 | every type outside the table keeps its data |
| Interpreters.TargetsOfRow | swig_wrap.cpp:2157-2161 | what every cast of a row points to after the load |
| Interpreters.CanonicalTargetExactly | swig_wrap.cpp:2157-2171 | a cast points to the registered type of its target's name if and only if its own type or its target was new |
| Propagation.PropagateClientData | swig_wrap.cpp:2213-2234 | runs once; afterwards every type of the table with data has data on all its converter-free targets, whatever the order, and data only came from types that had some |
| Propagation.PropagateAt | swig_wrap.cpp:2221-2233 | one round of the loop keeps the closure of the entries before it, even of those that gain data later |
| Propagation.PropagationIsReachability | swig_wrap.cpp:2213-2234 | a type has data afterwards if and only if it had data or is reachable from a type of the table that had |
| Propagation.PropagationMeans | swig_wrap.cpp:2213-2234 | the same outcome in terms of the fields: what keeps data, whose data is gained, and which casts lead to data |
| Propagation.PropagationIsLeast | swig_wrap.cpp:2213-2234 | any set that holds the types of the table with data and is closed under casts without a converter to types without data holds every type that gains data |
| Framing.CutIsComplete | net_message.cpp:86-122 | cutting a stream loses nothing, yields whole frames and stops only short of one |
| Framing.CutContinues | net_message.cpp:86-122 | a stream may be cut piece by piece, carrying only the unfinished rest: the cut does not depend on the pieces |
| Framing.FramesOfJoined | net_message.cpp:86-122 | any prefix of concatenated frames is cut into a prefix of those frames, and the whole into all of them |
| Framing.JoinedIsInjective | net_message.cpp:14-22 | concatenations are prefixes of one another exactly when the lists of frames are: the format has one reading |
| Framing.FrameLayout | net_message.cpp:14-37 | a frame is the body length, low byte first, the type, low byte first, and the body |
| Framing.HeaderSurvives | net_message.cpp:98-103 | after the resize at the end of the header the buffer still starts with the header, and has the announced length, if and only if the field is at most 0xFFFB; it is too short for the field itself exactly for 0xFFFC and 0xFFFD |
| Framing.OverflowingHeaders | net_message.cpp:98-103 | what is left of the buffer for each of the four larger fields |
| Framing.BufferSurvives | net_message.cpp:124-139 | a buffer is transmitted intact under every segmentation if and only if it has at most 65535 bytes |
| NetMessages.NetMessage.constructor | net_message.cpp:8-12 | a new message is an empty frame, ready to receive |
| NetMessages.NetMessage.SetLength | net_message.cpp:14-22 | makes `GetLength` the buffer length modulo 65536, and the message a frame when it is short enough |
| NetMessages.NetMessage.SetType | net_message.cpp:29-37 | changes the type field and nothing else |
| NetMessages.NetMessage.ReWrite | net_message.cpp:39-44 | empties the message and its send cursor |
| NetMessages.NetMessage.Copy | net_message.cpp:51-58 | takes over what the other message still has to send; copying a message that has sent nothing to itself empties it |
| NetMessages.NetMessage.WriteAt | net_message.cpp:60-66 | overwrites a range that fits, drops one that does not |
| NetMessages.NetMessage.Write | net_message.cpp:141-145 | appends to the body and keeps the length field right modulo 65536 |
| NetMessages.NetMessage.WriteString | net_message.cpp:141-145 | the string form of `<<` (net_message.h, lines 73-81), one or two such writes: appends the length modulo 65536 and that many bytes |
| NetMessages.NetMessage.Read | net_message.cpp:161-171 | moves the bytes and the cursor if and only if they are all there; else changes neither |
| NetMessages.NetMessage.ReadString | net_message.cpp:173-188 | with fewer than two bytes left nothing changes; when the length is zero or more than is left the variable is kept and the cursor moves by two; otherwise the variable gets exactly the announced bytes and the cursor stands behind them |
| NetMessages.NetMessage.WriteFields | net_message.cpp:141-145 | a chain of writes appends the encodings of the fields, and the message stays a frame while it is short enough |
| NetMessages.NetMessage.Compose | net_message.cpp:14-44 | a message built from type and fields is, byte by byte, length, type and the encoded fields |
| NetMessages.NetMessage.ReadFields | net_message.cpp:161-188 | a chain of reads is the reading that the round trip is about |
| NetMessages.NetMessage.WriteThenRead | net_message.cpp:29-49 | type and fields written into a message are read back from it after ReRead |
| NetMessages.NetMessage.Append | net_message.cpp:147-159 | refuses when the buffer has 65535 bytes or more, else adds the other's pending bytes (their number modulo 65536) behind what is still unsent |
| NetMessages.NetMessage.Send | net_message.cpp:124-131 | bytes sent and bytes pending together are unchanged if and only if the cursor stays within 16 bits |
| NetMessages.NetMessage.SendRepeatedly | net_message.cpp:124-131 | any number of sends in a row transmits exactly the pieces that the 16-bit cursor arithmetic gives, the ones `BufferSurvives` is about, whatever the system grants |
| NetMessages.NetMessage.SendDone | net_message.cpp:133-139 | true exactly when nothing is pending, and then rewinds |
| NetMessages.NetMessage.Recv | net_message.cpp:86-117 | asks for what is missing of the header, then of the body, and takes exactly what the system grants of it; what is held is the consumed prefix; after the header the buffer has the announced length when the field is at most 0xFFFB, and that less 65536 otherwise; without room for what was received the call reports a closed connection |
| NetMessages.NetMessage.RecvDone | net_message.cpp:119-122 | compares the 16-bit length with the bytes held: true if and only if they are one whole frame while the length fits, and if and only if the length is 65536 too large for them when a header that is still coming in announces too much |
| Fields.FieldRoundTrip | net_message.cpp:161-188 | reading one field where it was written returns it and moves behind it |
| Fields.RoundTrip | net_message.cpp:141-188 | reading all fields in the order they were written returns them and ends at their end |
| Fields.FieldsReturnExactly | net_message.cpp:173-188 | all variables end up equal to the fields written if and only if no string exceeds 65535 bytes and no string writes zero bytes into a variable that differs from it |
| Fields.ReadStaysInside | net_message.cpp:161-188 | no read crosses the end of the message |
| Fields.EncodeAppend | net_message.cpp:141-145 | one more write adds the encoding of one more field |
| Connections.Outgoing.SendMsg | net_message.cpp:51-159 | how the server queues a message (net_server.cpp, lines 193-240) with Send, SendDone, Copy and Append, with and without clearing the pending buffer first: says for each case whether the message is taken and what was transmitted; the stream stays the concatenation of the messages taken unless a part was sent and errno is not EAGAIN, or a buffer was cleared in the middle of a message |
| Connections.Outgoing.Discard | net_message.cpp:124-139 | throwing the pending buffer away (net_server.cpp, lines 203-208) leaves accepted what was sent in full, and tears the stream if and only if it cuts a message |
| Connections.Outgoing.KeptIsPrefix | net_message.cpp:124-139 | what stays accepted are exactly the messages sent in full, and the stream is whole if and only if nothing but those was sent |
| Connections.OverrunBuffer | net_message.cpp:124-159 | a run: two messages of 40000 bytes are queued in one buffer, and sending it breaks the stream |
| Connections.Outgoing.OnSend | net_message.cpp:124-139 | how the server goes on sending (net_server.cpp, lines 166-191): transmits the next pending bytes; the stream stays intact if and only if the cursor does not pass 65535; drops the buffer if and only if the cursor has reached its end |
| Connections.Incoming.Receive | net_message.cpp:86-117 | after one Recv the message holds either the rest of the stream so far or exactly one more frame |
| Connections.Incoming.Deliver | net_message.cpp:119-122 | on RecvDone hands over exactly the finished frame and starts a fresh message, or closes the connection when the queue is full (net_server.cpp, lines 143-153) |
| Connections.Incoming.ReceiveAll | net_message.cpp:86-122 | repeated Recv with a fresh message for each frame: what is delivered are the frames consumed, and the message in hand holds the rest |
| Connections.Incoming.OnRecv | net_message.cpp:86-122 | the receive loop of the server (net_server.cpp, lines 110-164): however the bytes arrive, the messages handed over are the frames of the bytes consumed; says when the connection is closed; while bytes arrive, one at a time or more, it stays open and takes them |
| Connections.RestGrows | net_message.cpp:86-122 | taking bytes moves the cut on by at most one frame |
| Connections.StreamArrives | net_message.cpp:86-159 | over any run of both sides, the messages delivered are a prefix of the messages accepted, and all of them when the stream is drained |
| Connections.FieldsArrive | net_message.cpp:86-188 | fields written into a message that is sent, cut out of the stream and read behind the header are the fields written, for every message delivered |
| PackageQueue.StepConserves | net_packlist.cpp:12-71 | every step keeps each accepted and not deleted message in exactly one place, delivered or queued, in the order of acceptance |
| PackageQueue.StepAccounts | net_packlist.cpp:12-66 | every step keeps tokens plus consumers on their way equal to messages queued plus a surplus, deletions less empty wake-ups, that is never negative |
| PackageQueue.StepBounds | net_packlist.cpp:38-50 | no step brings a socket above 201 queued messages |
| PackageQueue.EveryRun | net_packlist.cpp:6-71 | all three hold after every interleaving |
| PackageQueue.ReachableMeans | net_packlist.cpp:6-71 | so in every reachable state of any number of threads: the conservation, the token balance with its surplus, and the bound of 201, written out |
| PackageQueue.CallMeans | net_packlist.cpp:38-65 | what the history takes from an accepted, a freed and a refused message |
| PackageQueue.NextGetReturnsHead | net_packlist.cpp:12-20 | in any reachable state with no consumer on its way and a message queued there is a token, and the next GetMsg returns the head |
| PackageQueue.DeletedStayAway | net_packlist.cpp:52-71 | after DelMsg(s), whatever the threads do, the messages of s delivered or queued are exactly those accepted later and not deleted, in order |
| PackageQueue.DeleteSparesOthers | net_packlist.cpp:52-71 | DelMsg leaves the queue of every other socket as it was |
| PackageQueue.WithoutIsExact | net_packlist.cpp:57-66 | removing one socket takes all its messages and no other, and keeps the rest in order |
| PackageQueue.OnlyIsExact | net_packlist.cpp:33-41 | the count of a socket is the number of its messages in the list |
| PackageQueue.MarkFrees | net_packlist.cpp:61-65 | freeing what is queued for a socket leaves what was delivered before |
| PackageQueue.CPackageList.TryWait | net_packlist.cpp:12 | takes a token if there is one, without the lock |
| PackageQueue.CPackageList.TakeFront | net_packlist.cpp:14-20 | pops the head under the lock, or wakes up empty |
| PackageQueue.CPackageList.GetMsg | net_packlist.cpp:6-31 | returns the head when a token is there, and always when a message is queued and no other consumer is on its way |
| PackageQueue.CPackageList.Enqueue | net_packlist.cpp:40-47 | refuses if and only if more than 200 messages of the socket are queued |
| PackageQueue.CPackageList.AddMsg | net_packlist.cpp:38-50 | answers true if and only if at most 200 messages of the socket are queued; then appends and posts one token, else frees the message and changes nothing; no socket exceeds 201 |
| PackageQueue.CPackageList.FillQueue | net_packlist.cpp:38-50 | on an empty queue 201 messages of one socket are accepted and the 202nd is refused |
| PackageQueue.CPackageList.DelMsg | net_packlist.cpp:52-71 | the list loses exactly the socket's messages and the semaphore is unchanged |
| PackageQueue.CPackageList.EraseNodes | net_packlist.cpp:55-66 | the erasing loop is that filter |
| HashTables.TableSize | hash_table.h:34-46 | from 1 to 2^20 the least power of two that holds the request and is at least 2, so less than twice the request; otherwise 2^21 |
| HashTables.MaskIsRemainder | hash_table.h:76-76 | `id & m_modMask` is id modulo the number of buckets, for negative ids too |
| HashTables.CHashTable.constructor | hash_table.h:34-46 | an empty table of that size |
| HashTables.CHashTable.Default | hash_table.h:48-52 | an empty table of 512 buckets |
| HashTables.CHashTable.SlotInRange | hash_table.h:183-189 | every id has a bucket |
| HashTables.Walk | hash_table.h:78-86 | walking a chain stops at the first node with the id, knowing the link that leads to it, or at its end |
| HashTables.CHashTable.Locate | hash_table.h:78-86 | which is the node of that id if the table has one |
| HashTables.CHashTable.Find | hash_table.h:73-88 | is lookup in the map, and leaves the variable alone when the id is missing |
| HashTables.CHashTable.Insert | hash_table.h:90-109 | adds an entry, or keeps the first value; allocates only in the first case |
| HashTables.CHashTable.Erase | hash_table.h:129-144 | removes one key; the node taken out is deleted, once, and no other |
| HashTables.CHashTable.EraseAndGet | hash_table.h:111-127 | the same, returning the value |
| HashTables.CHashTable.Relink | hash_table.h:118-122 | redirecting one link takes one node out of one chain and leaves all other chains hanging |
| HashTables.CHashTable.Unlink | hash_table.h:117-123 | and keeps the table a map over the remaining nodes |
| HashTables.CHashTable.FlatIsLive | hash_table.h:54-144 | the chains together hold every live node exactly once and no deleted one |
| HashTables.CHashTable.ForEach | hash_table.h:146-162 | offers entries of the map, none twice, and stops right after the first refusal, whatever the callback's answers depend on; offers all of them when none is refused |
| HashTables.CHashTable.ForEachVisits | hash_table.h:146-162 | each entry is offered at most once, and all are when none is refused |
| HashTables.CHashTable.Destroy | hash_table.h:54-71 | deletes every node still alive, each exactly once |

## Left out

- InitializeModule: one interpreter only; loading a module into a second one re-points its `next` (swig_wrap.cpp:2100-2101), and the early return for a module that another interpreter initialised (swig_wrap.cpp:2110) is not modelled.
- InitializeModule: a module is loaded as its generated code declares it, with sorted unique names, fresh types and cast nodes, and casts to its own types; the null-type sentinel behind each row is the end of a sequence.
- TypeQueryModule: what it answers after a comparison of the fallback scan has left its range (see `EquivExactly`) has no defined meaning and is excluded.
- ModuleRing: the names of loaded types are never null, and `l + r` in the binary search does not overflow `size_t`.
- HexData: characters are ASCII, so the signedness of `char` does not matter; a pointer has 8 bytes, and UnpackVoidPtr is UnpackDataName at that size.
- Recv: what a further call does after a length field of 0xFFFC or 0xFFFD is not modelled, because the buffer no longer holds a length field; OnRecv starts from streams whose headers announce at most 65535 bytes.
- Append: appending a message to itself or copying it to itself after a part of it was sent is excluded, because the source bytes move while they are read.
- NetMessage: `SetData`, `GetData` and nesting one message in another (net_message.h:111-125) are thin wrappers around the buffer.
- SendMsg: the epoll registration and the lock are not modelled; messages are whole frames of at most 65535 bytes.
- OnRecv: the package list is a number of messages it still takes; `m_recvMsgList` and `m_sendMsgList` are the one entry of this socket.
- CPackageList: the mutex is the atomicity of the steps and the flag that a producer holds it; `usleep` and `catch (...)` have no counterpart.
- CHashTable: the id and value of a node are set when it is created and never change; the callback of ForEach does not change the table; `DelAll` deletes what the values point to and leaves the nodes.
- Generated Lua wrappers, casts between classes (`dcast`, `owndata`) and `SWIG_TypeCompare` (whose body is `SWIG_TypeEquiv`): calls into code outside the repository, or no state.
- swig_wrap.h repeats the same runtime without module initialisation.
- Pool allocators, logging, configuration, the database and the timer are wrappers without properties of their own.
