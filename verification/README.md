# A verified model of the distributed file system

The repository is a small distributed file system in C. Clients talk the file access protocol (FAP) to file
servers, file servers talk the directory control protocol (DCP) to one directory server, and file servers copy
files from each other with the file content transfer protocol (FCTP). This project models its four cores on one
set of datatypes and proves what they are for.

- **Wire format** (`Bytes`, `Messages`, `Codec`, `Layout`, `Wire`). `Codec` is the format as functions: a printer and a
  parser that undo each other; `Layout` states the bytes themselves. `Wire` is the C code's own form: the buffer that grows and moves, the NULL-terminated array
  of section pointers, the serializer and the field-by-field parser, each proved equal to the functions.
- **Grammars and checks** (`Sections`, `Dcp`, `Fap`, `Answers`). The cursor validators accept exactly the message
  grammar, what passes the checks after a request is exactly what the program builds to answer it, and the section
  accesses of the two dispatchers are in range and of the right type. Those of the client are so under an exact
  condition, which the answers of the program's own file server meet.
- **Directory** (`Paths`, `DirTree`, `DirServer`, `Directory`, `Registry`). Path splitting as `strtok` does it, the
  tree with its operations, the request handlers and what they keep over every sequence of requests; `Directory` is
  the heap of first-child and next-sibling nodes, proved to do what the functions say, down to the bytes that go
  back. `Registry` holds the two slot tables.
- **Whole exchanges** (`Transfer`, `Lines`, `EndToEnd`, `Sessions`, `Commands`, `FileServers`, `Client`). Moving file contents; the
  connection between a file server and the directory over several requests; the complete exchanges from a client call
  to its result; a client's whole session as a function of the bytes that it sends, and what each command comes to in
  it; and the file server's handlers and command loop and the client's operations as imperative code.
- **Whole system** (`Protocol`, `Progress`, `Owners`, `Known`, `Replicas`, `Runs`). The transition system of one directory and any
  number of file servers, what any server can do after any run, what every run keeps, the exact conditions of what only some runs keep, and concrete runs.

Integers have the widths of the C types (`byte`, `uint16`, `uint32`, `uint64`, `int32`); lengths are below 2^32 by
type, conversions that narrow are written out, and an id counter wraps. A connection is a queue of bytes, and every
receive parses what was printed; a parse ends with a message, or fails and leaves the bytes that it has not read, or
waits for more. Chunk boundaries, transaction ids, addresses and user names are parameters.

## Main results

- The parser gives back what the printer wrote, for every message and whatever follows it, exactly when every file info
  has a path and a user, and it accepts nothing else (`Codec.RoundTrip`, `Codec.DecodeIsEncodeInverse`); the
  serializer with its growing buffer and the field-by-field parser do just that (`Wire.FsmsgToBuffer`,
  `Wire.FsmsgFromSocket`).
- What passes the checks after a request is exactly what the program builds to answer it (`Dcp.PassesIffReply`,
  `Fap.PassesIffReply`); the client's section accesses are good exactly under a stated condition
  (`Answers.ListMissingIff`, `Answers.SecondMissingIff`).
- The heap of pointers serves any byte stream as the functions on the tree do (`Directory.Directory.ServeFileserver`),
  and after any interleaving of requests the tree stands for a map that they build up (`DirServer.RunRefinesMap`).
- The file server's loop, with its one line to the directory, is the session as a function of the client's bytes
  (`FileServers.FileServer.ServeClient`). What each command comes to in it is stated from the client's bytes to the
  bytes that go out, the directory and the contents of every local file: a listing sends exactly the entries
  (`Commands.ListSends`), a creation makes the file and answers with it (`Commands.CreateSends`), a write lays the data
  over the file and makes the server the owner (`Commands.WriteSends`), a read sends the local file
  (`Commands.ReadSendsLocal`) or fetches the owner's and sends that (`Commands.ReadSendsCopy`), and no other local file
  is touched (`Commands.SessionFrame`). A command whose request ends the directory's thread is the last that is ever
  served (`Sessions.StuckForEver`).
- After any run, any server that is idle can begin any operation and any outstanding request can be served and
  finished, but for those that no handler takes (`Progress.AnyBegins`, `Progress.BusyMovesIff`); writes, creations and
  reads by an arbitrary server come to what they should (`Progress.WriteRuns`, `Progress.CreateRuns`,
  `Progress.ReadRuns`), and no step touches a file but the one that it makes (`Progress.RunFrame`).
- However the steps of all servers interleave, the directory is what the served requests make of a new one
  (`Protocol.RunIsRequests`), and what resolves resolves to the same node ever after (`Protocol.ResolvedForever`).
- In every run, a message is refused for its ids exactly behind the first answer that could not be parsed
  (`Protocol.RefusedByIdIff`, with a concrete run in `Runs.OutOfStepRun`).
- Owners hold what they own in exactly the runs whose steps are harmless (`Owners.HeldThroughoutIff`), and every stored
  file is known to the directory in exactly the runs whose finished creations were preceded by a request with that
  target (`Known.KnownThroughoutIff`).
- In every run whose creations have existing parents all of this holds at once, no connection gets out of step, and a
  replica list names another server that holds the file (`Replicas.AlwaysSound`, `Replicas.OwnersAlwaysHold`).

## What turned out different from the intention

Each of these is a theorem with its exact condition.

- A file info with an empty path or user name cannot be read back, because a read of zero bytes counts as a failure
  (`src/protomsg.c:219-226`). Messages survive the wire if and only if none contains one (`Codec.RoundTrip`); a
  listing reaches the client if and only if every entry has a name (`EndToEnd.ListIsChildren`).
- `swap64` is its own inverse on any host, but lays ids down in the documented big-endian order if and only if the
  host is little-endian or both halves of the id are equal (`Bytes.Swap64IsBigEndian`).
- `add_node` hangs a new node under the deepest existing ancestor (`src/fsdird.c:292-294`), where the documentation
  reports an error for a missing parent (`doc/desc/protocols.md:334-337`). A created path is found afterwards if and
  only if its parent exists and it does not end in a slash (`DirServer.CreatedIsFound`, with a concrete case in
  `DirServer.MissingParentMisplaces`), and sibling names stay unique if and only if no such creation lands on a taken
  name (`DirServer.HandleUnique`; creating one path twice makes two entries, `DirServer.TwiceIsTwoEntries`). Of the
  whole system, owners hold what they own in exactly the runs whose steps give no server a path that it neither stores,
  nor asked to write, nor made in an existing directory (`Owners.HeldThroughoutIff`). Stored files are known to the
  directory in exactly the runs in which every finished creation of a file that the server did not store was preceded
  by a request with that target: its own, when the parent existed (`Known.ServedIsKnownIff`), or another
  (`Known.KnownThroughoutIff`). One run of three steps breaks both (`Runs.MissingParentBreaksBoth`).
- An answer that cannot be parsed leaves its rest on the connection, which stays open (`src/protomsg.c:217-220`,
  `src/fsservd.c:298-309`). That happens exactly to the answers to the creation of a new path that ends in a slash,
  which makes an entry without a name, and to the listing of a directory with such an entry
  (`Protocol.UnreadableAnswerIff`). The next message on that connection begins in the middle of that answer and is
  refused for its transaction or its server id; as long as every answer could be parsed, none is
  (`Protocol.RefusedByIdIff`). After `touch x/` in an empty directory the next listing is read with four and the user
  name as its transaction (`Runs.OutOfStepRun`), and gets no answer, whoever asks
  (`EndToEnd.TrailingSlashSilencesListing`, `EndToEnd.OutOfStepIsSilent`). Nothing is claimed of the messages that come
  after that one on such a connection.
- A creation or write without a user name or without a path ends the directory's thread, and the file server waits for
  ever; on a connection in step no other request that the directory takes goes unanswered (`Protocol.UnansweredIff`).
  Such a command, and any that asks the directory after it, is the last that the file server serves
  (`Sessions.StuckForEver`; a client without a user name that creates a file and then lists the root gets no answer to
  either, `Sessions.NamelessSession`).
- The client accesses sections that its checks do not guarantee (`src/fap.c:193-198,241,338-339`). An OK, or an
  announcement of data, passes both checks after a listing, and the entries are then looked for in vain
  (`Answers.OkIsMissing`, `Answers.DataOutIsMissing`). All accesses are good if and only if the response is a list of
  files or announces no bytes (`Answers.ListMissingIff`); those of `fap_create` and `fap_read_file` if and only if it
  is not an OK (`Answers.SecondMissingIff`). The program's own file server sends no such answers
  (`EndToEnd.ListReplyHasAll`, `EndToEnd.CreateReplyHasAll`). `create_file` of the file server copies section 1 of a
  reply that may announce nothing (`src/fsservd.c:337`; `EndToEnd.CreateReplyMissingIff`).
- The directory's validator has no rule for its own error message (`src/dcp.c:169-174`): it accepts everything that
  the program builds except that (`Dcp.BuiltIsAccepted`). Receivers look for errors first.
- A negative count passes both validators as an empty list (`Dcp.AcceptedIsBuilt`), and `fap_list` returns it
  (`Answers.NegativeListing`).
- The size of a file is announced as a signed int (`src/fsservd.c:452`); the client's receive loop ends if and only
  if the size is below 2^31 (`EndToEnd.ReadDelivers`).
- The file server's table of clients counts registrations and never sessions that ended, so a full table is not
  always refused (`Registry.PickIsInTableIff`).
- `fap_create` compares the count section of the answer with the number of the OK response (`src/fap.c:241`). Both
  are 1, so a creation is reported as a success (`EndToEnd.CreateOutcome`).
- The documentation gives FCTP four header ids and the code two (`doc/desc/protocols.md:294-308`,
  `src/protomsg.c:50-52`); three of the four requests to the directory carry their two ids the other way round
  (`src/fsservd.c:231,284,358` against `src/fsservd.c:473`), which the directory does not look at. The model follows
  the code.

## Model

| member | source | states |
|---|---|---|
| Bytes.ValueOfBigEndian | src/protomsg.c:41-62 | reading a big-endian field gives the number that was laid down |
| Bytes.BigEndianOfValue | src/protomsg.c:132-158 | every field of that width is the big-endian form of the number read from it |
| Bytes.Htonl | src/protomsg.c:411-416 | the converted word's memory image is the big-endian form, on either kind of host |
| Bytes.Swap64Twice | src/protomsg.c:411-423 | swap64 is its own inverse, so ntohll undoes htonll |
| Bytes.Swap64Words | src/protomsg.c:411-416 | which bytes swap64 puts on the wire on each kind of host |
| Bytes.Swap64IsBigEndian | src/protomsg.c:411-423 | ids are big-endian on the wire if and only if the host is little-endian or both halves agree |
| Messages.Content | src/protomsg.h:40-47 | what a validator sees of a section list ends at the first end marker |
| Codec.Take | src/protomsg.c:125 | a read gives all bytes asked for or there is no message, and a zero-length read fails at once |
| Codec.BodyForward | src/protomsg.c:178-239 | the body of a section parses back to it whatever follows, if and only if it is readable; otherwise the parse stops behind the empty name |
| Codec.BodyBackward | src/protomsg.c:178-239 | what the body parser consumes is the printed form of its result, with the tag of its type |
| Codec.SectionsForward | src/protomsg.c:161-240 | the section loop reads the printed list back up to the end marker and leaves what follows, or fails at the first unreadable section and leaves the rest |
| Codec.SectionsBackward | src/protomsg.c:161-240 | the section loop accepts only printed lists and drops the end marker |
| Codec.RoundTrip | src/protomsg.c:26-247 | parsing a printed message followed by anything gives it back without its end marker and leaves exactly what followed, if and only if every file info has a path and a user; otherwise it fails and leaves exactly the rest of the message and what followed |
| Codec.DecodeIsEncodeInverse | src/protomsg.c:126-247 | the parser accepts nothing but printed messages: what it consumed is the printed form of its result |
| Codec.PrefixFree | src/protomsg.c:26-247 | no printed message is a prefix of another one; equal streams start with equal messages |
| Codec.DecodeGrows | src/protomsg.c:126-247 | the parser does not look ahead: what it makes of the bytes that have come, it makes of them whatever arrives behind them |
| Codec.StreamRoundTrip | src/protomsg.c:26-265 | back-to-back messages decode to the list sent, up to the first unreadable one |
| Codec.StreamDelivered | src/protomsg.c:26-265 | a stream of readable messages decodes to exactly the list sent |
| Layout.IntegerBytes | src/protomsg.c:64-80 | the literal bytes of the end marker, of an integer and of a negative one |
| Layout.DataBytes | src/protomsg.c:81-90 | the literal bytes of a text section (type 2) and of a binary one (type 3) |
| Layout.FileBytes | src/protomsg.c:91-106 | the literal bytes of a file info section, field by field |
| Layout.DcpKinds | src/dcp.h:10-26 | the type number of each directory message |
| Layout.FapKinds | src/fap.h:7-33 | the type number of each client message, and the number of each command and response in its first section |
| Layout.FapBytes | src/protomsg.c:26-113 | the literal bytes of a listing command, with its three ids |
| Layout.DcpBytes | src/fsservd.c:231-237 | the literal bytes of a listing request, with its two ids the other way round |
| Layout.ReplicaBytes | src/fsservd.c:473-475 | the literal bytes of a replica request, with its two ids in the documented order |
| Layout.FctpBytes | src/fctp.c:17-40 | the literal bytes of a download request |
| Wire.ByteBuffer.BufferAdd | src/protomsg.c:11-24 | earlier bytes are kept, exactly the data is appended, and capacity grows by the source's formula only when it must |
| Wire.Fsmsg.Create | src/protomsg.c:267-289 | a new message has the id count of its protocol and an empty section list |
| Wire.Fsmsg.AddSection | src/protomsg.c:292-347 | the section is appended before the terminating NULL and the others keep their order |
| Wire.Fsmsg.SetInteger | src/fsdird.c:175 | an integer section is rewritten in place and nothing else changes |
| Wire.AddWord64 | src/protomsg.c:40-58 | on a little-endian host an id goes out as its eight big-endian bytes, on a big-endian one with its words exchanged |
| Wire.AddBody | src/protomsg.c:70-108 | the bytes added for a section body are those of the format, and their number is returned |
| Wire.AddSections | src/protomsg.c:64-109 | the loop up to NULL adds the printed form of all sections, in order |
| Wire.FsmsgToBuffer | src/protomsg.c:26-113 | through any number of reallocations the buffer holds exactly the encoding, the length returned is its length, and capacity stays within twice that plus 64 (at least 1024) |
| Wire.Socket.Read | src/protomsg.c:115-125 | one read under TRY takes exactly n bytes off the connection or fails |
| Wire.ReadSection | src/protomsg.c:178-239 | the switch on the section type reads what the body parser reads, and fails where it fails |
| Wire.ReadSections | src/protomsg.c:161-240 | the section loop leaves exactly the parsed sections in the growing array and the rest on the connection |
| Wire.FsmsgFromSocket | src/protomsg.c:126-247 | the parser returns the decoded message and leaves what follows; it returns NULL exactly where decoding fails, leaving exactly the bytes that decoding leaves, and waits exactly where bytes are missing |
| Sections.ShapeFits | src/protomsg.h:40-47 | the cursor passes a shape and then meets the end exactly when the content has that shape |
| Sections.Transmitted | src/protomsg.c:251-265 | a message that is sent arrives as it was built if it is readable, and not at all otherwise |
| Dcp.ValidateSections | src/dcp.c:116-176 | the cursor answers 0 exactly on the grammar, with counted repetition and nothing left over |
| Dcp.EndMarkerIrrelevant | src/dcp.c:173-174 | the verdict is the same with and without the end marker that the wire drops |
| Dcp.BuiltIsAccepted | src/dcp.c:14-102 | every built message arrives when its file infos are named, and is accepted if and only if it is not an error |
| Dcp.AskingArrives | src/fsservd.c:225-237 | a file server's request arrives and its payload is read back, whichever way round its ids are |
| Dcp.BodyOf | src/fsdird.c:136-148 | after validation every section access of the dispatcher is in range and of the right type |
| Dcp.AcceptedIsBuilt | src/dcp.c:116-176 | an accepted message is one the program could build, but for a negative count, which reads as an empty list |
| Dcp.BodyOfBuilt | src/fsdird.c:136-148 | the handlers get the payload that was built |
| Dcp.PassesIffReply | src/dcp.c:116-213 | what passes the response check and the validator is exactly what the program builds to answer that request with those ids, or a negative count for an empty list |
| Dcp.CodeNames | src/dcp.c:180-213 | the code of the response check names the first id that differs, or an error |
| Dcp.OwnIdsPass | src/dcp.c:180-213 | with the request's own ids a response fails only for being an error (-5) or of another kind (-6) |
| Fap.ValidateSections | src/fap.c:423-518 | the cursor answers 0 exactly on the grammar of kinds, commands and responses |
| Fap.EndMarkerIrrelevant | src/fap.c:514-515 | the verdict is the same with and without the end marker |
| Fap.BuiltIsAccepted | src/fap.c:14-408 | every built message arrives when its file infos are named and is accepted, errors included |
| Fap.Dispatch | src/fsservd.c:154-198 | after validation every section access of the dispatcher is in range and of the right type |
| Fap.NarrowingIsLossless | src/fsservd.c:139-165 | copying the command number to 16 bits loses nothing for an accepted command |
| Fap.DispatchReadsAll | src/fsservd.c:163-190 | what is dispatched carries all sections of the message, in place |
| Fap.DispatchOfBuilt | src/fsservd.c:154-198 | the dispatcher gets the command that the client built |
| Fap.CodeNames | src/fap.c:520-551 | the code of the response check names the first id that differs, or an error |
| Fap.PassesIffReply | src/fap.c:423-551 | what passes the response check and the validator is exactly what the program builds to answer that request with those ids, or a negative count for an empty list |
| Answers.GoodReplySections | src/fap.c:181-191 | which sections a response has that the client goes on with |
| Answers.ListMissingIff | src/fap.c:193-198 | for every message, the accesses of fap_list are in range and of the right type if and only if a response that it goes on with is a list of files or announces no bytes |
| Answers.SecondMissingIff | src/fap.c:241 | the access of fap_create, and that of fap_read_file, is in range if and only if a response that it goes on with is not an OK; that of fap_write_file always is |
| Answers.BuiltResults | src/fap.c:229-341 | what the operations return for each response that the program builds: a write 0 for an OK only, a creation 0 for a list of exactly one file or an announcement of exactly one byte |
| Answers.OkIsMissing | src/fap.c:181-193 | concretely: an OK arrives, passes both checks and has no section 1 |
| Answers.DataOutIsMissing | src/fap.c:193-198 | concretely: an announcement of five bytes passes both checks, and fap_list looks for five entries |
| Answers.NegativeListing | src/fap.c:193-200 | concretely: a count of -3 passes both checks and is returned |
| Paths.CString | src/protomsg.h:38 | a duplicated string section ends at the first zero byte |
| Paths.TokensAreComponents | src/fsdird.c:316-336 | strtok delivers exactly the nonempty pieces between slashes, in order |
| Paths.TokensAtSlash | src/fsdird.c:316-336 | the components on the two sides of a slash are independent |
| Paths.TokensOfJoin | src/fsdird.c:316-336 | joining then splitting any list of names gives the list back |
| Paths.NameIsLastToken | src/fsdird.c:287-296 | the text after the last slash is the last component, or empty when the path ends in a slash |
| Paths.LastTokenIsName | src/fsdird.c:287-296 | strtok's last component is that text if and only if the path does not end in a slash |
| Paths.LocalPath | src/fsservd.c:321-326 | a path behind the data directory names the directory's components followed by its own if and only if a slash separates them or one is empty |
| DirTree.LongestPrefix | src/fsdird.c:311-340 | inexact lookup stops at the node of the longest prefix that resolves; exact lookup answers only when that is the whole path, and then the two agree |
| DirTree.PrefixResolves | src/fsdird.c:311-340 | whatever resolves, its prefixes resolve |
| DirTree.OnePathEach | src/fsdird.c:298-340 | a node is reached by at most one list of components |
| DirTree.AttachValid | src/fsdird.c:298-309 | adding a child keeps tree shape: every node hangs on exactly one link |
| DirTree.AttachFind | src/fsdird.c:298-340 | adding a child changes exactly one lookup, that of the parent's path followed by the new name, if it was free |
| DirTree.AttachUnique | src/fsdird.c:298-309 | sibling names stay unique if and only if the parent has no child of that name |
| DirTree.EveryNodeIsFound | src/fsdird.c:311-340 | with unique sibling names every node is found under the path its ancestors' names spell |
| DirServer.AddNodeFind | src/fsdird.c:287-296 | a creation makes at most one new path resolve, to the new node, and leaves every other lookup as it was |
| DirServer.PlacedAtPath | src/fsdird.c:287-296 | a new node lands at the path asked for if and only if its parent exists and the path does not end in a slash |
| DirServer.CreatedIsFound | src/fsdird.c:195-232 | a created path is found afterwards, owned by the caller, if and only if its parent exists |
| DirServer.MissingParentMisplaces | src/fsdird.c:287-296 | concretely: creating /a/b in an empty directory makes /b appear and /a/b stay unknown |
| DirServer.HandleKeeps | src/fsdird.c:161-277 | every handler keeps tree shape and known owners, and adds at most one node |
| DirServer.HandleFind | src/fsdird.c:195-277 | what resolves keeps resolving to the same node under any request; at most the request's target is new |
| DirServer.HandleOwner | src/fsdird.c:208-247 | a request gives its target to the requesting server and changes no other owner |
| DirServer.HandleUnique | src/fsdird.c:195-277 | sibling names stay unique if and only if the request is not a creation that lands on a taken name |
| DirServer.TwiceIsTwoEntries | src/fsdird.c:195-309 | concretely: creating /a/b twice in an empty directory leaves two entries of one name |
| DirServer.HandleNames | src/fsdird.c:287-296 | all nodes keep nonempty names if and only if no new path that ends in a slash is created |
| DirServer.AddedIsNew | src/fsdird.c:287-296 | after a creation whatever resolved does so as before, with its owner, at most one path is new, and under an existing parent it is the one asked for, owned by the caller |
| DirServer.AddedIsLast | src/fsdird.c:298-309 | under an existing parent the new entry is the last of the parent's, behind those that were there, with the name asked for |
| DirServer.WriterOwns | src/fsdird.c:234-256 | after an update everything resolves as before, and only the owner of that path is another |
| DirServer.HandleRefinesMap | src/fsdird.c:195-277 | on the map from component lists to owners a request is one insertion, or nothing |
| DirServer.RepliesRefineMap | src/fsdird.c:195-277 | the replies are lookups in that map: creation is refused exactly for keys, update exactly for non-keys, and a replica request names the key's owner |
| DirServer.RunRefinesMap | src/fsdird.c:195-277 | after any interleaving of requests the tree stands for the map that their insertions build up |
| DirServer.ResolvedStays | src/fsdird.c:298-340 | over every sequence of requests a path that once resolves keeps resolving to the same node |
| DirServer.ParentsFirstUnique | src/fsdird.c:195-309 | when parents are created first, sibling names stay unique and every node has exactly one path |
| DirServer.OwnerIsLastWriter | src/fsdird.c:208-247 | after any interleaving of requests the owner of every path is the server of its last successful create or update |
| DirServer.KnownIffWritten | src/fsdird.c:195-256 | after any interleaving of requests a path resolves exactly if it was the target of one |
| DirServer.ReplicaIsLastWriter | src/fsdird.c:258-277 | a replica request is answered with that server's address, and refused if there is none |
| DirServer.TargetOfSuccess | src/fsdird.c:195-256 | with an existing parent a file list answers exactly the requests that took effect, at the path asked for |
| DirServer.ListedName | src/fsdird.c:195-256 | a creation or update that succeeds is answered with one file, under the last component of its path; an update succeeds exactly for a known path, a creation for an unknown one |
| DirServer.RequestServed | src/fsdird.c:118-151 | a request at the front of a stream is handled, and its answer, with its transaction, comes before those of what follows |
| DirServer.OtherServed | src/fsdird.c:127-151 | a message that is not of its kind is answered with error 9, one of another kind is passed over, and neither changes anything |
| DirServer.UnparsedServed | src/fsdird.c:124-126 | a message that cannot be parsed ends the service; without one the thread waits |
| DirServer.Run | src/fsdird.c:118-155 | tree shape and known owners hold after every sequence of requests |
| Directory.Directory.DirFindNode | src/fsdird.c:311-340 | the walk over the pointers ends, and returns the object of the looked-up or deepest node |
| Directory.SpellsAfterAttach | src/fsdird.c:298-309 | setting one pointer makes the heap spell the tree with one more node |
| Directory.Directory.AddChild | src/fsdird.c:298-309 | the heap afterwards is the tree with the node attached last, well linked |
| Directory.Directory.AddNode | src/fsdird.c:287-296 | the heap afterwards is the tree of the function, with one new object |
| Directory.Directory.CreateFile | src/fsdird.c:195-232 | tree and reply are those of the handler function |
| Directory.Directory.UpdateFile | src/fsdird.c:234-256 | tree and reply are those of the handler function |
| Directory.Directory.ListChildren | src/fsdird.c:173-182 | the message lists all children in sibling order, and its count section, raised in place, is their number |
| Directory.Directory.ReadDir | src/fsdird.c:161-193 | the reply is that of the handler function and the tree is unchanged |
| Directory.Directory.Dispatch | src/fsdird.c:136-151 | each accepted message is served by its own handler |
| Directory.Directory.ServeFileserver | src/fsdird.c:118-155 | for every byte stream the final tree, all bytes sent back, and whether the thread has ended or still waits, are those of serving its messages one by one |
| Registry.Table.RegisterFsrv | src/fsdird.c:105-116 | occupied slots stay a prefix counted by fsrvcnt; a server gets the next slot, and a full table refuses |
| Registry.Table.AcceptAll | src/fsdird.c:71-82 | after any list of connections the table is the one of `Assigned`, and one more id has been drawn |
| Registry.AssignedKeeps | src/fsdird.c:71-116 | ids are nonzero, strictly increasing and at most the counter; a filled slot never changes; a full table takes nobody |
| Registry.ClientTable.RegisterClient | src/fsservd.c:204-219 | a client gets the first free slot; without one, the index behind the table comes back |
| Registry.ClientTable.AcceptClient | src/fsservd.c:111-132 | one client gets the slot of the tally, and its slot is free again exactly when it quits |
| Registry.ClientTable.AcceptClients | src/fsservd.c:104-134 | for any list of clients the slots given out and the table are those of the tally |
| Registry.PickIsInTableIff | src/fsservd.c:204-219 | a client gets a slot of the table if and only if at most 100 were registered before and not all of these slots are lost; it is refused if and only if more were and not all are lost |
| Transfer.RecvFile | src/netutil.c:39-54 | the counted loop ends exactly when some pieces add up to the count, and has then copied them in order and left the rest |
| Transfer.ReceivedFromIs | src/netutil.c:39-54 | the loop's result as a function: there is one exactly when pieces add up to the count, and then it is these pieces in order, with the rest left |
| Transfer.Overlay | src/fsservd.c:401-406 | writing does not truncate: the data comes first, the longer old tail stays |
| Transfer.DownloadAnswered | src/fctp.c:96-150 | a download is answered under its own transaction with the whole file, or with error 1 |
| Transfer.FctpDeliversFile | src/fctp.c:17-153 | through both encodings a copy is exactly the other server's file, and fails exactly when it has none |
| Lines.PostKeeps | src/fsdird.c:118-155 | a request, served or not, keeps the tree shape, known owners and every lookup; unread bytes stay in front, and an ended thread stays ended |
| Lines.AnswerHeard | src/protomsg.c:126-265 | an answer on a line in step is heard as it was built, or leaves exactly the rest of itself unread |
| Lines.UnreadSlips | src/protomsg.c:217-226 | an answer of the directory that cannot be parsed leaves bytes that begin with the user name and counters of a file info |
| Lines.SlippedIsRefused | src/dcp.c:180-199 | a message that is parsed from bytes that begin so is refused for its transaction or for the server's id, whatever was asked |
| Lines.SlippedHears | src/fsservd.c:240-309 | so is whatever a server hears next on such a line, whatever the directory answers |
| EndToEnd.CommandArrives | src/fsservd.c:136-198 | each client command reaches the dispatcher as it was built |
| EndToEnd.DirectoryAnswers | src/fsservd.c:229-255 | on a line in step a request to the directory has the handler's effect, and its answer is heard if its entries are named and leaves the line out of step otherwise |
| EndToEnd.DirectorySilent | src/fsdird.c:124-126 | a request that cannot be parsed changes nothing, gets no answer and ends the thread |
| EndToEnd.DirectoryEnded | src/fsdird.c:124-126 | after that no request gets an answer |
| EndToEnd.ListIsChildren | src/fap.c:156-201 | on a line in step fap_list returns exactly the children in sibling order; no answer comes exactly when one has an empty name, and then the line is out of step |
| EndToEnd.ListReplyHasAll | src/fsservd.c:257-268 | what the file server answers to a listing, whatever the directory sent it, has every section that fap_list accesses |
| EndToEnd.TrailingSlashSilencesListing | src/fsservd.c:243-249 | concretely: after creating /x/ in an empty directory, listing the root is not answered, neither at the same server nor at another |
| EndToEnd.CreateOutcome | src/fap.c:203-245 | on a line in step: the result, the local file, the tree and the line after fap_create, in every case |
| EndToEnd.OutOfStepIsSilent | src/fsservd.c:243-384 | on a line out of step the next listing, creation or write gets no answer and makes no file, whatever it asks for |
| EndToEnd.CreateReplyMissingIff | src/fsservd.c:300-337 | create_file copies a missing section exactly when a reply that passes announces nothing |
| EndToEnd.CreateReplyHasAll | src/fsservd.c:332-340 | what the file server answers to a creation has the section that fap_create accesses |
| EndToEnd.WriteOutcome | src/fsservd.c:349-423 | on a line in step a write goes through exactly when the directory knows the path, and the line stays in step |
| EndToEnd.WriteReported | src/fap.c:247-295 | fap_write_file returns 0 exactly when the directory knows the path, and -6 otherwise |
| EndToEnd.ReadDelivers | src/fap.c:297-342 | for any chunking the client receives exactly the stored bytes, and its loop ends if and only if the size is below 2^31 |
| EndToEnd.WriteReadsBack | src/fsservd.c:395-460 | after a write the client reads back its data followed by the longer old tail |
| EndToEnd.RegisterLearnsIds | src/dcp.c:14-102 | the handshake leaves the server with its slot's id and the file system id, and the directory with its figures |
| EndToEnd.LogInLearnsIds | src/fap.c:36-119 | the handshake leaves the client with the three ids and the data port, and the server with host and user |
| Sessions.MessageKeeps | src/fsservd.c:136-199 | whatever the client sends, every path that resolved resolves to the same node and no local file goes away |
| Sessions.MessageAnswer | src/fsservd.c:136-199 | a message gets at most one answer, with its own transaction and the session's ids, that the client's parser can read |
| Sessions.ConversationKeeps | src/fsservd.c:136-199 | the same for every stream of bytes, from every state of the line to the directory |
| Sessions.ConversationAnswers | src/fsservd.c:136-199 | for every stream of bytes and every state of the line to the directory the client gets back exactly the answers, in the order of its commands, at most one each, and its response check takes them or sees an error |
| Sessions.StuckForEver | src/fsservd.c:136-309 | a command whose request ends the directory's thread, or comes after one that has, is the last that the server serves: nothing is sent, and nothing behind it is read |
| Sessions.NamelessSession | src/fsservd.c:275-309 | concretely: a client without a user name that creates /a and then lists the root gets no answer to either |
| Commands.ListSends | src/fsservd.c:225-273 | listing an existing directory whose entries have names sends exactly its entries in sibling order, changes nothing, and the session goes on |
| Commands.ListStumbles | src/fsservd.c:243-249 | with an entry without a name nothing is sent and the line is out of step |
| Commands.UnservedStuck | src/fsdird.c:161-232 | a listing that the directory cannot serve, or the creation of a path without a slash, ends its service of that server, which waits for ever |
| Commands.CreateSends | src/fsservd.c:275-347 | creating a new path sends the list of that one file, leaves it in the local files as it was or empty, beside the others, and adds at most one path to the directory, the one asked for if its parent exists |
| Commands.CreateRefused | src/fsservd.c:300-305 | creating an existing path sends error 2 and changes nothing |
| Commands.CreateStumbles | src/fsservd.c:298-309 | creating a new path that ends in a slash sends nothing, makes no file, and leaves the line out of step |
| Commands.WriteSends | src/fsservd.c:349-423 | writing a known path takes exactly the announced bytes, in whatever pieces, lays them over the local file, leaves the other files and the rest of the data, makes the server the owner and sends an OK |
| Commands.WriteWaits | src/netutil.c:39-54 | when no number of pieces adds up to the count nothing is sent and the server waits |
| Commands.WriteRefused | src/fsservd.c:372-383 | writing an unknown path sends error 1 and changes nothing |
| Commands.ReadSendsLocal | src/fsservd.c:425-464 | reading a local file announces its size, sends its bytes and changes nothing, whatever state the line is in |
| Commands.ReadSendsCopy | src/fsservd.c:425-507 | reading a file that is not local and whose owner has it keeps an equal copy beside the other files, announces its size and sends exactly the owner's bytes |
| Commands.ReadExits | src/fsservd.c:438-442 | when there is no owner, or it does not have the file, nothing is sent and the server exits |
| Commands.ReadStuck | src/fsservd.c:466-480 | on a line whose thread has ended the read of a file that is not local is the last command |
| Commands.OutOfStepSends | src/fsservd.c:240-384 | on a line out of step the next listing, creation or write sends nothing and leaves local files and data alone |
| Commands.CopiedIs | src/fsservd.c:500-504 | whatever hosts are tried, the first that has the file is copied exactly, the other local files stay, and when none has it nothing changes |
| Commands.QuitSends | src/fsservd.c:154-161 | quitting sends an OK and ends the session |
| Commands.BadMessageSends | src/fsservd.c:143-147 | a message that is not of its kind is answered with error 9 under its own transaction, which is not remembered |
| Commands.OtherMessagePasses | src/fsservd.c:153-198 | any other message without a handler is passed over |
| Commands.MessageFrame | src/fsservd.c:275-507 | in every state a message touches no local file but that of its path, and a read does not change one that is there |
| Commands.SessionFrame | src/fsservd.c:136-199 | over every stream of bytes a local file stays as it was unless a message was about its path |
| Commands.WriteThenReadBack | src/fsservd.c:349-464 | from the bytes of both connections to the bytes of both connections: writing an existing file and reading it gives the data and the longer old tail, for any pieces the data arrives in |
| Commands.CreateThenRead | src/fsservd.c:275-464 | from bytes to bytes: a file made in an existing directory is read back as what was there, or nothing, and the directory has it with the server as owner |
| Commands.CreateThenList | src/fsservd.c:225-347 | from bytes to bytes: a directory listed after a file was made in it has the entries that were there, in order, and the new one behind them |
| FileServers.FileServer.Send | src/fsservd.c:229-238 | sending a request and the directory's thread serving it are the post of the line, on the heap and the bytes |
| FileServers.FileServer.Hear | src/fsservd.c:240 | one receive takes off the line exactly what the line's next parse does |
| FileServers.CopyEntries | src/fsservd.c:262-264 | the count-driven loop stays in range and copies all entries in order |
| FileServers.FileServer.ListDirectory | src/fsservd.c:225-273 | request, checks and translation, step by step on the heap and the wire, are the turn of the session |
| FileServers.FileServer.CreateFile | src/fsservd.c:275-347 | response, local file, line and directory after create_file are those of the turn |
| FileServers.FileServer.WriteFile | src/fsservd.c:349-423 | response, local file, line, what is left on the data connection and directory after write_file are those of the turn |
| FileServers.FctpServerTurn | src/fctp.c:96-150 | one connection of the copy server gets the file, an error, or nothing |
| FileServers.FctpGetFile | src/fctp.c:17-58 | the exchange, step by step, delivers what the copy step delivers |
| FileServers.FetchFromHosts | src/fsservd.c:500-504 | the hosts are tried in order and the first copy found is stored |
| FileServers.FileServer.AskFile | src/fsservd.c:466-507 | the hosts tried are those of the directory's reply when it passes all checks |
| FileServers.FileServer.ServeFile | src/fsservd.c:425-464 | a local file is announced and sent; another one is asked for first, and the server exits when it does not come |
| FileServers.FileServer.ServeMessage | src/fsservd.c:142-199 | one turn of the loop: answer, files, line, directory, remembered transaction and freed slot |
| FileServers.FileServer.ServeClient | src/fsservd.c:136-202 | for every stream of bytes and every state of the line, all that goes out on both connections, and the files, the line, the directory and the client's record afterwards, are those of the session; it ends where the session gets stuck |
| Client.Check | src/fap.c:181-191 | receiving and the two checks end with 0 exactly on a response that the client goes on with |
| Client.CopyFiles | src/fap.c:193-200 | the count-driven loop copies all entries in order, none for a negative count |
| Client.FapList | src/fap.c:181-200 | under the condition of its accesses, fap_list returns the entries and the count |
| Client.FapCreate | src/fap.c:229-244 | under the condition of its access, fap_create returns what the end-to-end statements say |
| Client.FapWriteFile | src/fap.c:279-294 | fap_write_file returns what the end-to-end statements say, without a condition |
| Client.FapReadFile | src/fap.c:326-341 | under the condition of its access, exactly the announced number of bytes is received |
| Protocol.AlwaysConnected | src/fsservd.c:225-507 | in every reachable state a server that has missed no answer has at most one request outstanding (on its way, answered, or read by a thread that ended), and the connection of one that has just missed its first begins in the middle of it |
| Protocol.PaceIsHistory | src/protomsg.c:126-247 | a server counts as having missed no answer exactly if none of its receives in the run failed |
| Protocol.UnreadableAnswerIff | src/fsdird.c:161-256 | an answer cannot be parsed if and only if it is to the creation of a new path that ends in a slash, or to the listing of a directory with an entry without a name |
| Protocol.RefusedByIdIff | src/dcp.c:180-213 | in every reachable state a message that has come is refused for its transaction or an id if and only if the answer before it was the first that could not be parsed; without one it is good or an error |
| Protocol.UnansweredIff | src/fsdird.c:124-131 | in every reachable state, on a connection that has missed no answer, a server whose request was taken waits in vain if and only if it is a creation or write without a user name or a path, and then the thread has ended |
| Protocol.ResolvedForever | src/fsdird.c:298-340 | in every run, with or without missing parents, a path that has once resolved resolves to the same node ever after |
| Protocol.RunIsRequests | src/fsdird.c:118-155 | however the steps of the servers interleave, the tree is that of the served requests in their order |
| Protocol.FinishedCreates | src/fsservd.c:298-330 | the transition system makes the local file in the same cases as create_file |
| Protocol.FinishedWrites | src/fsservd.c:372-408 | the transition system writes the local file in the same cases as write_file |
| Protocol.FinishedAsks | src/fsservd.c:482-504 | the transition system goes on with the same hosts as ask_file |
| Progress.AnyBegins | src/fsservd.c:136-199 | after any run any idle server can begin any operation; a local file is read at once, otherwise its request is sent and its answer awaited |
| Progress.AnyServes | src/fsdird.c:118-155 | after any run the first request of any server whose thread runs can be served when it can be read and its handler takes it, with the handler's effect and answer |
| Progress.AnyFinishes | src/fsservd.c:240-249 | after any run any server that waits goes on as soon as a message has come or is broken |
| Progress.AnyFetches | src/fsservd.c:500-504 | after any run any server that fetches lays the first host's file over its own, or goes to the next host, or gives up |
| Progress.BusyMovesIff | src/fsservd.c:225-507 | in every reachable state a busy server that has missed no answer is helped on by some step if and only if it does not wait for a creation or write without a user name or path, and its request is one that the handler takes |
| Progress.WriteRuns | src/fsservd.c:349-423 | after any run a write of a known path by any server that is ready goes through: data over the old file, the server as owner, and nothing else another |
| Progress.WriteRefusedRuns | src/fsservd.c:372-383 | one of an unknown path leaves everything as it was |
| Progress.CreateRuns | src/fsservd.c:275-347 | after any run a creation of a new path by any server that is ready makes its file, and in the directory at most that path, owned by the server if the parent exists |
| Progress.CreateRefusedRuns | src/fsservd.c:300-305 | one of an existing path leaves everything as it was |
| Progress.ListRuns | src/fsservd.c:225-273 | after any run a listing by any server that is ready leaves everything as it was |
| Progress.ReadRuns | src/fsservd.c:425-507 | after any run a read by any server that is ready, of a file that only its owner has, leaves an equal copy there and nothing else another |
| Progress.ReadFailsRuns | src/fsservd.c:466-507 | when nobody has it everything is in the end as it was |
| Progress.StepFrame | src/fsservd.c:275-507 | in every state and for every step every file of every server is as it was, but for the one that the step makes, writes or fetches |
| Progress.RunFrame | src/fsservd.c:275-507 | the same over every run |
| Progress.MadeContents | src/fsservd.c:317-408 | the file that a step makes is the old one with the data laid over it: nothing for a creation, the client's for a write, the host's whole file for a fetch |
| Owners.HoldsOn | src/fsservd.c:275-423 | in every state and for every step of anyone, a server that stores a file, or has its accepted answer waiting, goes on doing so |
| Owners.OwnersHoldIff | src/fsdird.c:195-256 | in every state a step keeps owners holding their files if and only if its server then holds what it was just given |
| Owners.GivenIsHeldIff | src/fsdird.c:195-256 | on a connection that has missed no answer that is so if and only if the server asked to write the path, or made it in an existing directory, or happens to store a file of that place |
| Owners.StumbledIsHeldIff | src/fsservd.c:298-309 | on one that has just missed its first answer, if and only if the server happens to store a file of that place |
| Owners.StepKeepsOwnersIff | src/fsservd.c:225-507 | in every reachable state a step of anyone keeps owners holding what they own if and only if it is harmless |
| Owners.HeldThroughoutIff | src/fsservd.c:225-507 | owners hold what they own in every state of a run if and only if every step of the run is harmless |
| Known.AlwaysSettled | src/fsservd.c:349-507 | in every reachable state, on a connection that has missed no answer, an accepted write or a replica list is for a path that resolves |
| Known.MadeIsKnown | src/fsservd.c:395-504 | so what a server writes or fetches there is known; only creations can make a file of an unknown path |
| Known.KnownIffTargeted | src/fsdird.c:195-256 | in every run a path resolves if and only if a request with that target has been served |
| Known.KnownThroughoutIff | src/fsservd.c:225-507 | stored files are known in every state of a run if and only if each creation that makes a file which its server did not store (on a connection that has missed an answer: anything that makes one) was preceded by a served request with that target |
| Known.ServedIsKnownIff | src/fsdird.c:195-232 | the creation of a new path is itself such a request, and the path known after it, if and only if its parent exists |
| Replicas.ProperGoesOn | src/fsdird.c:195-232 | such a run can be continued by every possible step but one that serves the creation of a new path without an existing parent |
| Replicas.AlwaysSound | src/fsservd.c:275-507 | the invariant holds in every run whose creations have existing parents; every connection stays in step |
| Replicas.OwnersAlwaysHold | src/fsservd.c:275-423 | in every such run the owner of a path stores the file or is about to, every stored file resolves in the directory, and a replica list names another server that holds the file |
| Replicas.ReplicaNamesHolder | src/fsdird.c:258-277 | the address in a replica list is that of the owner, which holds the file and is not the asking server |
| Replicas.WriteThenRead | src/fsservd.c:395-442 | in every state an accepted write leaves the data and the longer old tail in the local file, and a read at that server is then served without asking anybody |
| Replicas.FetchCopies | src/fsservd.c:500-504 | a fetch goes to another server, succeeds exactly when that server stores the file by then, and makes an equal copy |
| Runs.OutOfStepRun | src/fsservd.c:243-309 | concretely: from nothing, after the creation of /x/, the answer to a listing with any transaction below 2^16 is read with the user name in its transaction, and refused with -2 |
| Runs.MissingParentBreaksBoth | src/fsdird.c:287-296 | concretely: from nothing, creating /a/b makes its server the owner of /b, which it does not hold, and then stores /a/b, which the directory does not know |

## Left out

- Sockets, address lookup, ports, interrupted calls, logging and debug output: a connection is a queue.
- Short reads and writes, lost connections, crashes and exits after failed system calls: the code does not recover from them.
- Manual memory management, freed and uninitialised memory and the union overlay: sections are tagged values, a copied section is an equal value, and `fsmsg_add_section` reserves the room that it means to.
- The client's prompt loop, command parsing and configuration (`src/fscli.c`, `src/util.c`), which hold user interface and setup code, and the quit exchange seen from the client.
- Locks, deletion, search, invalidation, replica counts and load balancing, which are documented and not implemented; cached copies may therefore be old, and nothing is claimed about their freshness.
- The discipline of `dirlock` (`src/fsdird.c:201-207`, `src/fsdird.c:238`): each directory handler is one atomic step.
- Dereferencing the terminating NULL in `TESTST` (`src/protomsg.h:42-47`): taken as the failure it is meant to be.
- Dcp.BodyOf: an update is read as the file info it carries, whose path the handler gets, where `src/fsdird.c:144` reads the section as a string.
- FileServers.FileServer.AskFile: the request carries the path, where `src/fsservd.c:471-474` sends an empty string.
- Directory.Directory.ReadDir: returns nothing when the directory does not exist or has 2^31 entries or more, where the code follows a NULL pointer or overflows its count; the service of the connection ends there.
- Directory.Directory.CreateFile: returns nothing for a path without a slash, where the code adds 1 to a NULL pointer.
- In the transition system no step serves a request of either kind, which would take the whole directory down.
- FileServers.FileServer.CreateFile: ends the session when the directory's reply announces nothing, where the code copies a section that is not there.
- FileServers.FctpServerTurn: ignores a download without a text section, and the copy step an OK without a binary one, where `src/fctp.c:114` and `src/fctp.c:49` read section 0 unchecked.
- FileServers.FileServer.WriteFile: what a write that still waits for data has already put into the file is not modelled.
- Sections of an error message that are read before validation (`src/fsservd.c:303`, `src/fsservd.c:378`, `src/fap.c:532`): a section that is not an integer is taken as 0, and nothing is printed; the error messages that the program builds have both sections.
- FileServers.FileServer.ServeClient: one session, in which nobody else changes the directory or another server's files; interleavings are the transition system's.
- Replicas.OwnersAlwaysHold: for file servers with distinct addresses, since a replica list names a server by its address and a fetch goes to whoever answers there.
- Replicas.AlwaysSound: for distinct addresses as well; client actions, the directory's handlers and fetches interleave freely, but a write's data is taken as complete when it is accepted, and no data stays behind on the data connection after a refused write.
- Replicas.ReplicaNamesHolder: for distinct addresses as well, like `Commands.ReadSendsCopy`, `Commands.ReadExits`, `Progress.ReadRuns` and `Progress.ReadFailsRuns`; `Commands.CopiedIs` holds for any.
- Protocol.RefusedByIdIff: says nothing of the messages behind the first one on a connection that has missed an answer, where the parser may start anywhere in an answer; for registered servers, whose id is not 0 (an id of 0 is not compared).
- Local files are told apart by the components of their path, so a path without a leading slash names the same file as the one with it; operating-system directories below the data directory, `.` and `..` are not modelled. `Paths.LocalPath` says when the two agree with the name on disk.
- Registry.ClientTable.AcceptClients: what the program does with an index behind the table is not modelled.
- Registry.AssignedKeeps: for fewer than 2^64 connections.
- Wire.FsmsgToBuffer: for a little-endian host, and with unbounded lengths; the capacity bound shows that no 32-bit length overflows for messages below a gigabyte.
- EndToEnd.ReadDelivers: for files below 4 GB that one `sendfile` call sends as a whole.
- FAP-level answers to every command: several error paths of the file server return silently, and the model has no answer there either.
- A file server's local files are one field that holds a map from component lists to contents, not files on a disk; the transition system is on values, and is tied to the imperative handlers by the `Finished` lemmas.
- The text of error messages that a client prints, and the data port and host name bookkeeping of a login.
