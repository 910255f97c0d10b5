/** What each command of a client does, from the bytes that it sends to the bytes that come back, to the directory
    and to the local files: stated on the tree and the files themselves, for a server whose line to the directory is
    in step. */
module Commands {
  import opened Wrappers
  import opened Bytes
  import opened Messages
  import opened Codec
  import opened Sections
  import opened Paths
  import opened DirTree
  import opened DirServer
  import opened Transfer
  import opened Answers
  import opened EndToEnd
  import opened Lines
  import opened Sessions
  import Dcp
  import Fap

  /** Where a session stands: the directory, what the server has, how many transactions it has drawn, and the last
      transaction of the client. */
  datatype State = State(tree: Tree, local: Local, drawn: nat, last: uint64)

  function Continued(site: Site, tids: nat -> uint64, s: State, bs: bytes): Result
    requires Serves(site, s.tree)
  {
    Conversation(s.tree, site, s.local, tids, s.drawn, s.last, bs)
  }

  /** On the command the session sends these messages and these bytes, and goes on from the given tree and local
      state with what follows. */
  ghost predicate Leads(site: Site, tids: nat -> uint64, s: State, tid: uint64, command: Fap.Body, more: bytes,
                        sent: seq<Msg>, out: bytes, u: Tree, l: Local)
    requires Serves(site, s.tree)
  {
    && Serves(site, u)
    && var rest := Continued(site, tids, State(u, l, s.drawn + 1, tid), more);
       Continued(site, tids, s, Encode(Seal(Command(site, tid, command))) + more) ==
         rest.(sent := sent + rest.sent, out := out + rest.out)
  }

  /** On the command the session ends, having sent nothing more. */
  ghost predicate EndsWith(site: Site, tids: nat -> uint64, s: State, tid: uint64, command: Fap.Body, more: bytes,
                           sent: seq<Msg>, u: Tree, l: Local, end: End)
    requires Serves(site, s.tree)
  {
    Continued(site, tids, s, Encode(Seal(Command(site, tid, command))) + more) == Result(u, l, tid, sent, [], end)
  }

  /** This is about every server, on every directory that requests can make of a new one. */
  lemma AnySite(site: Site, reqs: seq<Request>)
    requires site.slot < |site.infos| == |site.peers| && Run(InitialTree(), site.infos, reqs).Some?
    ensures Serves(site, Run(InitialTree(), site.infos, reqs).value)
  {
  }

  function Answered(response: Option<Msg>): seq<Msg> {
    if response.None? then [] else [response.value]
  }

  lemma Turned(site: Site, tids: nat -> uint64, s: State, tid: uint64, command: Fap.Body, more: bytes, u: Tree,
               turn: Turn<Option<Msg>>)
    requires Serves(site, s.tree) && Fap.KindOf(command) in {FAP_COMMAND, FAP_QUIT}
    requires CommandTurn(s.tree, site, SessionFor(site, tid, tids(s.drawn)), s.local, Some(command)) == (u, turn)
    ensures Serves(site, u)
    ensures turn.end.None? ==>
              Leads(site, tids, s, tid, command, more, Answered(turn.response), turn.out, u, turn.after)
    ensures turn.end.Some? && turn.out == [] ==>
              EndsWith(site, tids, s, tid, command, more, Answered(turn.response), u, turn.after, turn.end.value)
  {
    hide CommandTurn, Conversation, Encode, Command, SessionFor;
    CommandTurned(s.tree, site, s.local, tids, s.drawn, s.last, tid, command, more);
    assert Answered(turn.response) + [] == Answered(turn.response) && [] + turn.out == turn.out == turn.out + [];
  }

  // ---- Listing ------------------------------------------------------------------------------------------

  /** The files are the entries of directory d, in sibling order. */
  predicate Entries(t: Tree, d: nat, files: seq<FileInfo>)
    requires KidsInRange(t) && d < |t|
  {
    && |files| == |t[d].kids|
    && forall k :: 0 <= k < |files| ==> files[k] == FileInfo(0, t[t[d].kids[k]].name, Ascii("user"), 0, 0, 0)
  }

  lemma EntriesAre(t: Tree, d: nat, files: seq<FileInfo>)
    requires KidsInRange(t) && d < |t| && Entries(t, d, files)
    ensures files == ChildInfos(t, d)
    ensures AllNamed(files) <==> forall k :: 0 <= k < |files| ==> files[k].path != []
  {
    assert |Ascii("user")| == 4;
    assert forall k :: 0 <= k < |files| ==> (Named(files[k]) <==> files[k].path != []);
  }

  lemma ListedTurn(t: Tree, site: Site, x: Session, l: Local, recurse: int32, path: blob, files: countable<FileInfo>)
    requires Serves(site, t) && Registered(x, site.infos, site.slot) && l.line == IN_STEP
    requires Demands(t, Dcp.Read(recurse, path)) && files == ChildInfos(t, Lookup(t, CString(path)).value)
    ensures CommandTurn(t, site, x, l, Some(Fap.CmdList(recurse, path))) ==
              if AllNamed(files) then (t, Turn(l, Some(ClientMessage(x, Fap.Files(files))), [], None))
              else (t, Turn(l.(line := Line(true, Unread(Dcp.SectionsOf(Dcp.FileList(files))))), None, [], None))
  {
    hide AskDirectory, ListReply, Unread, Dcp.SectionsOf, Dcp.Message, Tokens, ChildInfos;
    var b := Dcp.Read(recurse, path);
    assert Handle(t, site.infos, site.slot, b) == (t, Some(Dcp.FileList(files)));
    DirectoryAnswers(t, site.infos, site.slot, x, b, t, Dcp.FileList(files));
    ListReplyOf(x, files);
    NoListReply(x);
  }

  lemma NoListReply(x: Session)
    ensures ListReply(x, None).None?
  {
  }

  /** The listing of an existing directory whose entries all have names sends exactly its entries, in sibling order, and
      changes nothing. */
  lemma ListSends(site: Site, tids: nat -> uint64, s: State, tid: uint64, recurse: int32, path: blob, more: bytes,
                  files: countable<FileInfo>)
    requires Serves(site, s.tree) && s.local.line == IN_STEP && Lookup(s.tree, CString(path)).Some?
    requires Entries(s.tree, Lookup(s.tree, CString(path)).value, files)
    requires forall k :: 0 <= k < |files| ==> files[k].path != []
    ensures Leads(site, tids, s, tid, Fap.CmdList(recurse, path), more,
                  [Command(site, tid, Fap.Files(files))], [], s.tree, s.local)
  {
    hide CommandTurn, Leads, Command, SessionFor, ClientMessage, ChildInfos, Tokens, EndsWith;
    var x := SessionFor(site, tid, tids(s.drawn));
    RegisteredHere(site, tid, tids(s.drawn));
    EntriesAre(s.tree, Lookup(s.tree, CString(path)).value, files);
    ListedTurn(s.tree, site, x, s.local, recurse, path, files);
    MessageIsCommand(site, tid, tids(s.drawn), Fap.Files(files));
    Turned(site, tids, s, tid, Fap.CmdList(recurse, path), more, s.tree,
           Turn(s.local, Some(ClientMessage(x, Fap.Files(files))), [], None));
  }

  /** When one of its entries has no name nothing is sent, and the line is out of step. */
  lemma ListStumbles(site: Site, tids: nat -> uint64, s: State, tid: uint64, recurse: int32, path: blob, more: bytes,
                     files: countable<FileInfo>) returns (unread: bytes)
    requires Serves(site, s.tree) && s.local.line == IN_STEP && Lookup(s.tree, CString(path)).Some?
    requires Entries(s.tree, Lookup(s.tree, CString(path)).value, files)
    requires exists k :: 0 <= k < |files| && files[k].path == []
    ensures Slipped(unread)
    ensures Leads(site, tids, s, tid, Fap.CmdList(recurse, path), more, [], [],
                  s.tree, s.local.(line := Line(true, unread)))
  {
    hide CommandTurn, Leads, Command, SessionFor, ClientMessage, Tokens, EndsWith, Unread, Dcp.SectionsOf, Slipped;
    var x := SessionFor(site, tid, tids(s.drawn));
    RegisteredHere(site, tid, tids(s.drawn));
    EntriesAre(s.tree, Lookup(s.tree, CString(path)).value, files);
    ListedTurn(s.tree, site, x, s.local, recurse, path, files);
    unread := Unread(Dcp.SectionsOf(Dcp.FileList(files)));
    assert OfDirectory(Dcp.FileList(files));
    UnreadSlips(Dcp.FileList(files));
    Turned(site, tids, s, tid, Fap.CmdList(recurse, path), more, s.tree,
           Turn(s.local.(line := Line(true, unread)), None, [], None));
  }

  /** A listing that the directory cannot serve, and the creation of a new path without a slash, end the directory's
      service of this server, which waits for ever. */
  lemma UnservedStuck(site: Site, tids: nat -> uint64, s: State, tid: uint64, command: Fap.Body, more: bytes)
    requires Serves(site, s.tree) && s.local.line == IN_STEP && AsksFor(site, command).Some?
    requires var b := AsksFor(site, command).value; Dcp.ReadableBody(b) && !Demands(s.tree, b)
    ensures EndsWith(site, tids, s, tid, command, more, [], s.tree, s.local.(line := Line(false, [])), Stuck)
  {
    hide CommandTurn, Leads, Command, SessionFor, EndsWith, Demands, Dcp.ReadableBody;
    var x := SessionFor(site, tid, tids(s.drawn));
    UnservedTurn(s.tree, site, x, s.local, command);
    Turned(site, tids, s, tid, command, more, s.tree,
           Turn(s.local.(line := Line(false, [])), None, [], Some(Stuck)));
  }

  lemma UnservedTurn(t: Tree, site: Site, x: Session, l: Local, command: Fap.Body)
    requires Serves(site, t) && l.line == IN_STEP && AsksFor(site, command).Some?
    requires var b := AsksFor(site, command).value; Dcp.ReadableBody(b) && !Demands(t, b)
    ensures CommandTurn(t, site, x, l, Some(command)) ==
              (t, Turn(l.(line := Line(false, [])), None, [], Some(Stuck)))
  {
    hide Transmit, Hear, Demands, ListReply, CreateReply, WriteReply, Dcp.Accepts, Dcp.BodyOf;
    var b := AsksFor(site, command).value;
    Dcp.AskingArrives(x.dirTid, x.sid, x.fsid, b);
    NothingHeard(false);
  }

  // ---- Creating -----------------------------------------------------------------------------------------

  /** The file list of one file. */
  function OneFile(name: blob): Fap.Body {
    Fap.Files([FileInfo(0, name, Ascii("user"), 0, 0, 0)])
  }

  lemma ExistsTurn(t: Tree, site: Site, x: Session, l: Local, path: blob, kind: int32)
    requires Serves(site, t) && Registered(x, site.infos, site.slot) && l.line == IN_STEP
    requires 0 !in path && path != [] && site.user != [] && Lookup(t, path).Some?
    ensures CommandTurn(t, site, x, l, Some(Fap.CmdCreate(path, kind))) ==
              (t, Turn(l, Some(ClientMessage(x, Fap.Failure(ERR_EXISTS, Ascii("file already exists")))), [], None))
  {
    hide AskDirectory, CreateReply, Ascii, Dcp.Message, Refusal, Tokens;
    CStringOfText(path);
    ExistingAsked(t, site.infos, site.slot, x, path, site.user);
    ExistsReply(x);
  }

  /** The creation of an existing path sends an error and changes nothing. */
  lemma CreateRefused(site: Site, tids: nat -> uint64, s: State, tid: uint64, path: blob, kind: int32, more: bytes)
    requires Serves(site, s.tree) && s.local.line == IN_STEP && site.user != []
    requires 0 !in path && path != [] && Lookup(s.tree, path).Some?
    ensures Leads(site, tids, s, tid, Fap.CmdCreate(path, kind), more,
                  [Command(site, tid, Fap.Failure(2, Ascii("file already exists")))], [], s.tree, s.local)
  {
    hide CommandTurn, Leads, Command, SessionFor, ClientMessage, Tokens, EndsWith, Ascii;
    var x := SessionFor(site, tid, tids(s.drawn));
    var error := Fap.Failure(ERR_EXISTS, Ascii("file already exists"));
    RegisteredHere(site, tid, tids(s.drawn));
    ExistsTurn(s.tree, site, x, s.local, path, kind);
    MessageIsCommand(site, tid, tids(s.drawn), error);
    Turned(site, tids, s, tid, Fap.CmdCreate(path, kind), more, s.tree,
           Turn(s.local, Some(ClientMessage(x, error)), [], None));
  }

  lemma NewTurn(t: Tree, site: Site, x: Session, l: Local, path: blob, kind: int32)
    requires Serves(site, t) && Registered(x, site.infos, site.slot) && l.line == IN_STEP
    requires 0 !in path && SLASH in path && site.user != [] && Lookup(t, path).None?
    ensures CommandTurn(t, site, x, l, Some(Fap.CmdCreate(path, kind))) ==
              (AddNode(t, path, Some(site.slot)),
               if EndsInSlash(path) then
                 Turn(l.(line := Line(true, Unread(Dcp.SectionsOf(NewReply(path))))), None, [], None)
               else
                 Turn(l.(files := Written(l.files, Tokens(path), [])),
                      Some(ClientMessage(x, Fap.Files([NodeInfo(AfterLastSlash(path))]))), [], None))
  {
    hide AskDirectory, CreateReply, Dcp.Message, Tokens, AddNode, LastSlash, Written, Unread, Dcp.SectionsOf, Ascii,
         NodeInfo;
    CStringOfText(path);
    NewAsked(t, site.infos, site.slot, x, path, site.user);
    if EndsInSlash(path) {
      NoCreateReply(x);
    } else {
      CreateReplyOf(x, NodeInfo(AfterLastSlash(path)));
    }
  }

  lemma NoCreateReply(x: Session)
    ensures CreateReply(x, None) == (None, false)
  {
  }

  /** The creation of a new path that does not end in a slash sends the list of that one file and leaves it in the local
      files, with its old contents or empty, beside the others; the directory has at most one more path, the one asked
      for if its parent exists. */
  lemma CreateSends(site: Site, tids: nat -> uint64, s: State, tid: uint64, path: blob, kind: int32, more: bytes)
    returns (u: Tree, name: blob)
    requires Serves(site, s.tree) && s.local.line == IN_STEP && site.user != []
    requires 0 !in path && SLASH in path && !EndsInSlash(path) && Lookup(s.tree, path).None?
    ensures u == AddNode(s.tree, path, Some(site.slot)) && HasNew(s.tree, u, path, site.slot)
    ensures Tokens(path) != [] && name == Tokens(path)[|Tokens(path)| - 1]
    ensures var q, files := Tokens(path), s.local.files;
            Leads(site, tids, s, tid, Fap.CmdCreate(path, kind), more, [Command(site, tid, OneFile(name))], [], u,
                  s.local.(files := files[q := if q in files then files[q] else []]))
  {
    hide CommandTurn, Leads, Command, SessionFor, ClientMessage, Tokens, EndsWith, Ascii, AddNode, HasNew, Written,
         LastSlash;
    var x := SessionFor(site, tid, tids(s.drawn));
    u, name := AddNode(s.tree, path, Some(site.slot)), AfterLastSlash(path);
    RegisteredHere(site, tid, tids(s.drawn));
    NewTurn(s.tree, site, x, s.local, path, kind);
    NameIsLastToken(path);
    AddedIsNew(s.tree, path, site.slot);
    MadeFile(s.local.files, Tokens(path));
    var list := Fap.Files([NodeInfo(AfterLastSlash(path))]);
    MessageIsCommand(site, tid, tids(s.drawn), list);
    Turned(site, tids, s, tid, Fap.CmdCreate(path, kind), more, u,
           Turn(s.local.(files := Written(s.local.files, Tokens(path), [])), Some(ClientMessage(x, list)), [], None));
  }

  /** That of a new path that ends in a slash sends nothing and makes no file, and the line is out of step. */
  lemma CreateStumbles(site: Site, tids: nat -> uint64, s: State, tid: uint64, path: blob, kind: int32, more: bytes)
    returns (u: Tree, unread: bytes)
    requires Serves(site, s.tree) && s.local.line == IN_STEP && site.user != []
    requires 0 !in path && EndsInSlash(path) && Lookup(s.tree, path).None?
    ensures HasNew(s.tree, u, path, site.slot) && Slipped(unread)
    ensures Leads(site, tids, s, tid, Fap.CmdCreate(path, kind), more, [], [], u,
                  s.local.(line := Line(true, unread)))
  {
    hide CommandTurn, Leads, Command, SessionFor, ClientMessage, Tokens, EndsWith, AddNode, HasNew, NewReply, Unread,
         Dcp.SectionsOf, Slipped;
    var x := SessionFor(site, tid, tids(s.drawn));
    SlashInside(path);
    u, unread := AddNode(s.tree, path, Some(site.slot)), Unread(Dcp.SectionsOf(NewReply(path)));
    RegisteredHere(site, tid, tids(s.drawn));
    NewTurn(s.tree, site, x, s.local, path, kind);
    NewReplyIs(path);
    UnreadSlips(NewReply(path));
    AddedIsNew(s.tree, path, site.slot);
    Turned(site, tids, s, tid, Fap.CmdCreate(path, kind), more, u,
           Turn(s.local.(line := Line(true, unread)), None, [], None));
  }

  lemma SlashInside(path: blob)
    requires EndsInSlash(path)
    ensures SLASH in path
  {
  }

  // ---- Writing ------------------------------------------------------------------------------------------

  lemma {:induction false} FrontReceived(front: seq<bytes>, behind: seq<bytes>)
    requires Chunks(front)
    ensures ReceivedFrom(front + behind, |Joined(front)|) == Some((Joined(front), behind))
  {
    if front == [] {
      assert front + behind == behind;
    } else {
      JoinedFirst(front);
      FrontReceived(front[1..], behind);
      assert (front + behind)[1..] == front[1..] + behind;
    }
  }

  lemma WriteTurned(t: Tree, site: Site, x: Session, l: Local, path: blob, length: int32)
    requires Serves(site, t) && RootNamed(t) && Registered(x, site.infos, site.slot) && l.line == IN_STEP
    requires 0 !in path && path != [] && site.user != []
    ensures CommandTurn(t, site, x, l, Some(Fap.CmdWrite(path, length))) ==
              if Lookup(t, path).Some? then
                (SetOwner(t, Lookup(t, path).value, site.slot),
                 match ReceivedFrom(l.data, length)
                 case None => Turn(l, None, [], Some(Waiting))
                 case Some((d, behind)) => Turn(Local(Written(l.files, Tokens(path), d), IN_STEP, behind),
                                                Some(ClientMessage(x, Fap.Ok)), [], None))
              else
                (t, Turn(l, Some(ClientMessage(x, Fap.Failure(ERR_FILENOTFOUND, Ascii("error")))), [], None))
  {
    hide AskDirectory, WriteReply, ClientMessage, ReceivedFrom, Written, Tokens, Ascii;
    CStringOfText(path);
    WriteOutcome(t, site.infos, site.slot, x, path, site.user);
  }

  /** A write of a known path takes the announced number of bytes off the data connection, whatever pieces they come
      in, lays them over the local file, leaves the other files and the rest of the data alone, makes the server the
      owner and sends an OK. */
  lemma WriteSends(site: Site, tids: nat -> uint64, s: State, tid: uint64, path: blob, more: bytes, front: seq<bytes>,
                   behind: seq<bytes>) returns (u: Tree)
    requires Serves(site, s.tree) && RootNamed(s.tree) && s.local.line == IN_STEP && site.user != []
    requires 0 !in path && path != [] && Lookup(s.tree, path).Some?
    requires s.local.data == front + behind && Chunks(front) && |Joined(front)| < 0x8000_0000
    ensures HasOwner(s.tree, u, path, site.slot)
    ensures var q, files := Tokens(path), s.local.files;
            Leads(site, tids, s, tid, Fap.CmdWrite(path, |Joined(front)|), more, [Command(site, tid, Fap.Ok)], [], u,
                  Local(files[q := Overlay(Joined(front), if q in files then files[q] else [])], IN_STEP, behind))
  {
    hide CommandTurn, Leads, Command, SessionFor, ClientMessage, Tokens, EndsWith, HasOwner, SetOwner, ReceivedFrom,
         Joined, Overlay;
    var x := SessionFor(site, tid, tids(s.drawn));
    var d: blob := Joined(front);
    u := SetOwner(s.tree, Lookup(s.tree, path).value, site.slot);
    RegisteredHere(site, tid, tids(s.drawn));
    WriteTurned(s.tree, site, x, s.local, path, |d|);
    FrontReceived(front, behind);
    WriterOwns(s.tree, path, site.slot);
    MessageIsCommand(site, tid, tids(s.drawn), Fap.Ok);
    Turned(site, tids, s, tid, Fap.CmdWrite(path, |d|), more, u,
           Turn(Local(Written(s.local.files, Tokens(path), d), IN_STEP, behind), Some(ClientMessage(x, Fap.Ok)), [],
                None));
  }

  /** When no number of pieces adds up to the announced count, the server waits for ever, and nothing is sent. */
  lemma WriteWaits(site: Site, tids: nat -> uint64, s: State, tid: uint64, path: blob, length: int32, more: bytes)
    returns (u: Tree)
    requires Serves(site, s.tree) && RootNamed(s.tree) && s.local.line == IN_STEP && site.user != []
    requires 0 !in path && path != [] && Lookup(s.tree, path).Some? && !Reaches(s.local.data, length)
    ensures HasOwner(s.tree, u, path, site.slot)
    ensures EndsWith(site, tids, s, tid, Fap.CmdWrite(path, length), more, [], u, s.local, Waiting)
  {
    hide CommandTurn, Leads, Command, SessionFor, ClientMessage, Tokens, EndsWith, HasOwner, SetOwner, ReceivedFrom,
         Reaches;
    var x := SessionFor(site, tid, tids(s.drawn));
    u := SetOwner(s.tree, Lookup(s.tree, path).value, site.slot);
    RegisteredHere(site, tid, tids(s.drawn));
    WriteTurned(s.tree, site, x, s.local, path, length);
    ReceivedFromIs(s.local.data, length);
    WriterOwns(s.tree, path, site.slot);
    Turned(site, tids, s, tid, Fap.CmdWrite(path, length), more, u, Turn(s.local, None, [], Some(Waiting)));
  }

  /** A write of a path that the directory does not know sends an error and changes nothing; its data is not taken. */
  lemma WriteRefused(site: Site, tids: nat -> uint64, s: State, tid: uint64, path: blob, length: int32, more: bytes)
    requires Serves(site, s.tree) && RootNamed(s.tree) && s.local.line == IN_STEP && site.user != []
    requires 0 !in path && path != [] && Lookup(s.tree, path).None?
    ensures Leads(site, tids, s, tid, Fap.CmdWrite(path, length), more,
                  [Command(site, tid, Fap.Failure(1, Ascii("error")))], [], s.tree, s.local)
  {
    hide CommandTurn, Leads, Command, SessionFor, ClientMessage, Tokens, EndsWith, Ascii;
    var x := SessionFor(site, tid, tids(s.drawn));
    var error := Fap.Failure(ERR_FILENOTFOUND, Ascii("error"));
    RegisteredHere(site, tid, tids(s.drawn));
    WriteTurned(s.tree, site, x, s.local, path, length);
    MessageIsCommand(site, tid, tids(s.drawn), error);
    Turned(site, tids, s, tid, Fap.CmdWrite(path, length), more, s.tree,
           Turn(s.local, Some(ClientMessage(x, error)), [], None));
  }

  // ---- Reading ------------------------------------------------------------------------------------------

  lemma LocalTurn(t: Tree, site: Site, x: Session, l: Local, path: blob, offset: int32, count: int32)
    requires Serves(site, t) && 0 !in path && Tokens(path) in l.files
    ensures CommandTurn(t, site, x, l, Some(Fap.CmdRead(path, offset, count))) ==
              (t, Turn(l, Some(ClientMessage(x, Fap.DataOut(FromWord(|l.files[Tokens(path)]|)))),
                       l.files[Tokens(path)], None))
  {
    hide ClientMessage, Tokens;
    CStringOfText(path);
  }

  /** A read of a local file announces its size, sends its bytes, asks nobody and changes nothing, whatever state
      the line is in. */
  lemma ReadSendsLocal(site: Site, tids: nat -> uint64, s: State, tid: uint64, path: blob, offset: int32, count: int32,
                       more: bytes)
    requires Serves(site, s.tree) && 0 !in path && Tokens(path) in s.local.files
    ensures var d := s.local.files[Tokens(path)];
            Leads(site, tids, s, tid, Fap.CmdRead(path, offset, count), more,
                  [Command(site, tid, Fap.DataOut(FromWord(|d|)))], d, s.tree, s.local)
  {
    hide CommandTurn, Leads, Command, SessionFor, ClientMessage, Tokens, EndsWith;
    var x, d := SessionFor(site, tid, tids(s.drawn)), s.local.files[Tokens(path)];
    LocalTurn(s.tree, site, x, s.local, path, offset, count);
    MessageIsCommand(site, tid, tids(s.drawn), Fap.DataOut(FromWord(|d|)));
    Turned(site, tids, s, tid, Fap.CmdRead(path, offset, count), more, s.tree,
           Turn(s.local, Some(ClientMessage(x, Fap.DataOut(FromWord(|d|)))), d, None));
  }

  /** The hosts that are tried are the owner's address, or nobody. */
  lemma HostsTried(t: Tree, site: Site, x: Session, path: blob)
    requires Serves(site, t) && Registered(x, site.infos, site.slot) && 0 !in path
    ensures var asked := AskDirectory(t, site.infos, site.slot, IN_STEP, x, Dcp.GetReplicas(path));
            var o := OwnerAt(t, Tokens(path));
            && asked.tree == t && asked.line == IN_STEP && asked.heard.Heard?
            && (o.Some? ==> o.value < |site.infos|)
            && ReplicaHosts(x, asked.heard.reply) == if o.Some? then [site.infos[o.value].address] else []
  {
    hide AskDirectory, Tokens, OwnerAt, Dcp.Message, Ascii, Handle, ReplicaHosts;
    var o := OwnerAt(t, Tokens(path));
    ReplicaAnswer(t, site.infos, site.slot, path);
    var b := Handle(t, site.infos, site.slot, Dcp.GetReplicas(path)).1.value;
    DirectoryAnswers(t, site.infos, site.slot, x, Dcp.GetReplicas(path), t, b);
    if o.Some? {
      OneHost(x, site.infos[o.value].address);
    } else {
      NoHost(x);
    }
  }

  lemma OneHost(x: Session, h: blob)
    ensures ReplicaHosts(x, Some(Dcp.Message(x.dirTid, x.sid, x.fsid, Dcp.ReplicaStatus([h])))) == [h]
  {
    hide Dcp.Accepts, Dcp.BodyOf;
    var b := Dcp.ReplicaStatus([h]);
    Dcp.ReplyAccepted(x.dirTid, x.sid, x.fsid, DCP_GET_REPLICAS, b);
    Dcp.BodyOfBuilt(x.dirTid, x.sid, x.fsid, b);
  }

  lemma NoHost(x: Session)
    ensures ReplicaHosts(x, Some(Dcp.Message(x.dirTid, x.sid, x.fsid, Refusal(ERR_FILENOTFOUND)))) == []
  {
    hide Dcp.Accepts;
    Dcp.OwnIdsPass(x.dirTid, x.sid, x.fsid, DCP_GET_REPLICAS, Refusal(ERR_FILENOTFOUND));
  }

  /** The first of the hosts that has the file. */
  lemma {:induction false} FirstHolder(infos: seq<ServerInfo>, peers: seq<Store>, hosts: seq<blob>, q: seq<bytes>)
    returns (k: nat)
    requires |peers| == |infos|
    ensures k <= |hosts|
    ensures forall j :: 0 <= j < k ==>
              HostNamed(infos, hosts[j]).None? || q !in peers[HostNamed(infos, hosts[j]).value]
    ensures k == |hosts| ==> FirstCopy(infos, peers, hosts, q).None?
    ensures k < |hosts| ==> HostNamed(infos, hosts[k]).Some? && q in peers[HostNamed(infos, hosts[k]).value]
                            && FirstCopy(infos, peers, hosts, q) == Some(peers[HostNamed(infos, hosts[k]).value][q])
  {
    if hosts == [] {
      k := 0;
    } else {
      var t := HostNamed(infos, hosts[0]);
      if t.Some? && q in peers[t.value] {
        k := 0;
      } else {
        var j := FirstHolder(infos, peers, hosts[1..], q);
        k := j + 1;
      }
    }
  }

  /** Whatever hosts are tried: the first that has the file is copied exactly, the other local files stay, and when none
      has it nothing changes. */
  lemma CopiedIs(infos: seq<ServerInfo>, peers: seq<Store>, hosts: seq<blob>, files: Store, q: seq<bytes>)
    returns (k: nat)
    requires |peers| == |infos| && q !in files
    ensures k <= |hosts|
    ensures forall j :: 0 <= j < k ==>
              HostNamed(infos, hosts[j]).None? || q !in peers[HostNamed(infos, hosts[j]).value]
    ensures k == |hosts| ==> WithCopy(infos, peers, hosts, files, q) == files
    ensures k < |hosts| ==>
              && HostNamed(infos, hosts[k]).Some? && q in peers[HostNamed(infos, hosts[k]).value]
              && WithCopy(infos, peers, hosts, files, q) == files[q := peers[HostNamed(infos, hosts[k]).value][q]]
  {
    k := FirstHolder(infos, peers, hosts, q);
    if k < |hosts| {
      NewFile(files, q, peers[HostNamed(infos, hosts[k]).value][q]);
    }
  }

  /** The server that the directory calls the owner of the path, if it has the file. */
  predicate HasCopy(site: Site, t: Tree, q: seq<bytes>)
    requires Serves(site, t)
  {
    var o := OwnerAt(t, q);
    o.Some? && o.value < |site.peers| && q in site.peers[o.value]
  }

  lemma CopiedFrom(site: Site, t: Tree, files: Store, q: seq<bytes>)
    requires Serves(site, t) && DistinctAddresses(site.infos) && q !in files
    ensures var o := OwnerAt(t, q);
            && (o.Some? ==> o.value < |site.infos|)
            && WithCopy(site.infos, site.peers, if o.Some? then [site.infos[o.value].address] else [], files, q) ==
                 if HasCopy(site, t, q) then files[q := site.peers[o.value][q]] else files
  {
    var o := OwnerAt(t, q);
    var hosts := if o.Some? then [site.infos[o.value].address] else [];
    var k := CopiedIs(site.infos, site.peers, hosts, files, q);
    if o.Some? {
      OwnHost(site.infos, o.value);
    }
  }

  lemma RemoteTurn(t: Tree, site: Site, x: Session, l: Local, path: blob, offset: int32, count: int32)
    requires Serves(site, t) && Registered(x, site.infos, site.slot) && l.line == IN_STEP
    requires DistinctAddresses(site.infos) && 0 !in path && Tokens(path) !in l.files
    ensures var q := Tokens(path);
            CommandTurn(t, site, x, l, Some(Fap.CmdRead(path, offset, count))) ==
              if HasCopy(site, t, q) then
                var d := site.peers[OwnerAt(t, q).value][q];
                (t, Turn(l.(files := l.files[q := d]), Some(ClientMessage(x, Fap.DataOut(FromWord(|d|)))), d, None))
              else (t, Turn(l, None, [], Some(Exited)))
  {
    hide AskDirectory, Tokens, OwnerAt, ReplicaHosts, WithCopy, ClientMessage, FirstCopy, HasCopy, Valid, OwnersKnown;
    CStringOfText(path);
    HostsTried(t, site, x, path);
    CopiedFrom(site, t, l.files, Tokens(path));
  }

  /** A read of a file that is not local, and whose owner in the directory has it, fetches it, keeps it beside the other
      local files, announces its size and sends exactly the owner's bytes. */
  lemma ReadSendsCopy(site: Site, tids: nat -> uint64, s: State, tid: uint64, path: blob, offset: int32, count: int32,
                      more: bytes, o: nat)
    requires Serves(site, s.tree) && DistinctAddresses(site.infos) && s.local.line == IN_STEP
    requires 0 !in path && Tokens(path) !in s.local.files
    requires OwnerAt(s.tree, Tokens(path)) == Some(o) && o < |site.peers| && Tokens(path) in site.peers[o]
    ensures var q := Tokens(path);
            var d := site.peers[o][q];
            Leads(site, tids, s, tid, Fap.CmdRead(path, offset, count), more,
                  [Command(site, tid, Fap.DataOut(FromWord(|d|)))], d,
                  s.tree, s.local.(files := s.local.files[q := d]))
  {
    hide CommandTurn, Leads, Command, SessionFor, ClientMessage, Tokens, EndsWith, OwnerAt;
    var x, d := SessionFor(site, tid, tids(s.drawn)), site.peers[o][Tokens(path)];
    RegisteredHere(site, tid, tids(s.drawn));
    RemoteTurn(s.tree, site, x, s.local, path, offset, count);
    MessageIsCommand(site, tid, tids(s.drawn), Fap.DataOut(FromWord(|d|)));
    Turned(site, tids, s, tid, Fap.CmdRead(path, offset, count), more, s.tree,
           Turn(s.local.(files := s.local.files[Tokens(path) := d]),
                Some(ClientMessage(x, Fap.DataOut(FromWord(|d|)))), d, None));
  }

  /** When the path has no owner in the directory, or its owner does not have it, the server exits: nothing is sent. */
  lemma ReadExits(site: Site, tids: nat -> uint64, s: State, tid: uint64, path: blob, offset: int32, count: int32,
                  more: bytes)
    requires Serves(site, s.tree) && DistinctAddresses(site.infos) && s.local.line == IN_STEP
    requires 0 !in path && Tokens(path) !in s.local.files
    requires forall o :: OwnerAt(s.tree, Tokens(path)) == Some(o) && o < |site.peers| ==>
               Tokens(path) !in site.peers[o]
    ensures EndsWith(site, tids, s, tid, Fap.CmdRead(path, offset, count), more, [], s.tree, s.local, Exited)
  {
    hide CommandTurn, Leads, Command, SessionFor, ClientMessage, Tokens, EndsWith, OwnerAt;
    var x := SessionFor(site, tid, tids(s.drawn));
    RegisteredHere(site, tid, tids(s.drawn));
    RemoteTurn(s.tree, site, x, s.local, path, offset, count);
    Turned(site, tids, s, tid, Fap.CmdRead(path, offset, count), more, s.tree, Turn(s.local, None, [], Some(Exited)));
  }

  /** On a line whose thread has ended, the read of a file that is not local is the last command. */
  lemma ReadStuck(site: Site, tids: nat -> uint64, s: State, tid: uint64, path: blob, offset: int32, count: int32,
                  more: bytes)
    requires Serves(site, s.tree) && s.local.line == Line(false, [])
    requires 0 !in path && Tokens(path) !in s.local.files
    ensures EndsWith(site, tids, s, tid, Fap.CmdRead(path, offset, count), more, [], s.tree, s.local, Stuck)
  {
    hide CommandTurn, Leads, Command, SessionFor, EndsWith, Tokens;
    EndedTurn(s.tree, site, SessionFor(site, tid, tids(s.drawn)), s.local, path, offset, count);
    Turned(site, tids, s, tid, Fap.CmdRead(path, offset, count), more, s.tree, Turn(s.local, None, [], Some(Stuck)));
  }

  lemma EndedTurn(t: Tree, site: Site, x: Session, l: Local, path: blob, offset: int32, count: int32)
    requires Serves(site, t) && l.line == Line(false, []) && 0 !in path && Tokens(path) !in l.files
    ensures CommandTurn(t, site, x, l, Some(Fap.CmdRead(path, offset, count))) == (t, Turn(l, None, [], Some(Stuck)))
  {
    hide AskDirectory, Tokens, WithCopy, ReplicaHosts;
    CStringOfText(path);
    DirectoryEnded(t, site.infos, site.slot, x, Dcp.GetReplicas(path));
  }

  // ---- Out of step --------------------------------------------------------------------------------------

  /** On a line out of step the next listing, creation or write sends nothing and leaves the local files and the data
      connection alone, whatever it asks for. */
  lemma OutOfStepSends(t: Tree, site: Site, x: Session, l: Local, command: Fap.Body)
    requires Serves(site, t) && Registered(x, site.infos, site.slot) && x.sid != 0
    requires Slipped(l.line.unread) && AsksFor(site, command).Some?
    ensures var turn := CommandTurn(t, site, x, l, Some(command)).1;
            && turn.response == None && turn.out == [] && turn.end in {None, Some(Stuck)}
            && turn.after.files == l.files && turn.after.data == l.data
  {
    hide Exchange, Slipped, Dcp.CheckResponse, Dcp.Accepts;
    var b := AsksFor(site, command).value;
    SlippedHears(t, site.infos, site.slot, l.line, Dcp.Asking(x.dirTid, x.sid, x.fsid, b), x.dirTid, x.sid, x.fsid,
                 Dcp.KindOf(b));
  }

  // ---- The others ---------------------------------------------------------------------------------------

  /** Quitting sends an OK and ends the session, whatever follows. */
  lemma QuitSends(site: Site, tids: nat -> uint64, s: State, tid: uint64, more: bytes)
    requires Serves(site, s.tree)
    ensures EndsWith(site, tids, s, tid, Fap.Quit, more, [Command(site, tid, Fap.Ok)], s.tree, s.local, Left)
  {
    hide CommandTurn, Command, SessionFor, ClientMessage, EndsWith;
    QuitTurn(s.tree, site, SessionFor(site, tid, tids(s.drawn)), s.local);
    MessageIsCommand(site, tid, tids(s.drawn), Fap.Ok);
    Turned(site, tids, s, tid, Fap.Quit, more, s.tree,
           Turn(s.local, Some(ClientMessage(SessionFor(site, tid, tids(s.drawn)), Fap.Ok)), [], Some(Left)));
  }

  /** A message that can be parsed and is not of its kind is answered with an error under its own transaction, which
      is not remembered; nothing else happens. */
  lemma BadMessageSends(site: Site, tids: nat -> uint64, s: State, m: Msg, more: bytes)
    requires Serves(site, s.tree) && Headed(FAP, m) && Open(m) && AllReadable(m.sections) && !Fap.Accepts(m)
    ensures var rest := Continued(site, tids, State(s.tree, s.local, s.drawn + 1, s.last), more);
            Continued(site, tids, s, Encode(Seal(m)) + more) ==
              rest.(sent := [Command(site, m.tid, Fap.Failure(9, []))] + rest.sent)
  {
    hide Fap.Accepts, Encode, Decode, Command, ClientMessage;
    RoundTrip(FAP, m, more);
    MessageIsCommand(site, m.tid, tids(s.drawn), Fap.Failure(ERR_MSG, []));
    var rest := Continued(site, tids, State(s.tree, s.local, s.drawn + 1, s.last), more);
    assert [] + rest.out == rest.out;
  }

  /** An accepted message that is no command the server has a handler for is passed over, and its transaction
      remembered. */
  lemma OtherMessagePasses(site: Site, tids: nat -> uint64, s: State, m: Msg, more: bytes)
    requires Serves(site, s.tree) && Headed(FAP, m) && Open(m) && AllReadable(m.sections)
    requires Fap.Accepts(m) && m.kind != 3 && (m.kind == 5 ==> IntegerAt(m.sections, 0) !in {1, 5, 6, 10})
    ensures Continued(site, tids, s, Encode(Seal(m)) + more) ==
              Continued(site, tids, State(s.tree, s.local, s.drawn + 1, m.tid), more)
  {
    hide Fap.Accepts, Encode, Decode;
    RoundTrip(FAP, m, more);
    NotDispatched(m);
    var rest := Continued(site, tids, State(s.tree, s.local, s.drawn + 1, m.tid), more);
    NothingAdded(rest);
  }

  lemma NotDispatched(m: Msg)
    requires Open(m) && Fap.Accepts(m) && m.kind != 3 && (m.kind == 5 ==> IntegerAt(m.sections, 0) !in {1, 5, 6, 10})
    ensures Fap.Dispatch(m).None?
  {
    ContentOfOpen(m.sections);
    if m.kind == FAP_COMMAND {
      Fap.NarrowingIsLossless(m);
    }
  }

  /** Bytes that cannot be parsed, or end too early, end the session. */
  lemma LostSession(site: Site, tids: nat -> uint64, s: State, bs: bytes)
    requires Serves(site, s.tree) && !Decode(FAP, bs).Got?
    ensures Continued(site, tids, s, bs) == Result(s.tree, s.local, s.last, [], [], Lost)
  {
  }

  // ---- What no command touches --------------------------------------------------------------------------

  /** The path whose local file the message may make or change. */
  function Touches(m: Msg): Option<seq<bytes>> {
    if !Fap.Accepts(m) then None
    else
      match Fap.Dispatch(m)
      case Some(CmdCreate(path, _)) => Some(Tokens(CString(path)))
      case Some(CmdWrite(path, _)) => Some(Tokens(CString(path)))
      case Some(CmdRead(path, _, _)) => Some(Tokens(CString(path)))
      case _ => None
  }

  /** Whatever the client sends and whatever state the line is in, a message touches no local file but that of its own
      path, and a read does not change one that is there. */
  lemma MessageFrame(t: Tree, site: Site, x: Session, l: Local, m: Msg, q: seq<bytes>)
    requires Serves(site, t)
    requires Touches(m) != Some(q) || (Fap.Accepts(m) && Fap.Dispatch(m).value.CmdRead? && q in l.files)
    ensures SameFile(l.files, MessageTurn(t, site, x, l, m).1.after.files, q)
  {
    hide Ask, ListReply, CreateReply, WriteReply, ReplicaHosts, FirstCopy, Fap.Dispatch, Fap.Accepts, ClientMessage,
         Tokens, CString, AnswerMessage;
  }

  /** So after a whole session a local file is as it was, unless one of the messages was about its path. */
  lemma {:induction false} SessionFrame(site: Site, tids: nat -> uint64, s: State, bs: bytes, q: seq<bytes>)
    requires Serves(site, s.tree)
    requires forall k :: 0 <= k < |Received(FAP, bs)| ==> Touches(Received(FAP, bs)[k]) != Some(q)
    ensures SameFile(s.local.files, Continued(site, tids, s, bs).after.files, q)
    decreases |bs|
  {
    hide MessageTurn, Touches;
    if Decode(FAP, bs).Got? {
      var (m, more) := Decode(FAP, bs).value;
      var x := SessionFor(site, m.tid, tids(s.drawn));
      assert Received(FAP, bs)[0] == m && Received(FAP, bs)[1..] == Received(FAP, more);
      MessageKeeps(s.tree, site, x, s.local, m);
      MessageFrame(s.tree, site, x, s.local, m, q);
      var (u, turn) := MessageTurn(s.tree, site, x, s.local, m);
      if turn.end.None? {
        SessionFrame(site, tids, State(u, turn.after, s.drawn + 1, Remembered(s.last, m)), more, q);
      }
    }
  }

  // ---- Two commands ---------------------------------------------------------------------------------------

  /** What a client sends that reads a file and quits. */
  function ReadAndQuit(site: Site, path: blob, r: uint64, q: uint64): bytes
    requires site.slot < |site.infos|
  {
    Encode(Seal(Command(site, r, Fap.CmdRead(path, 0, 0)))) + (Encode(Seal(Command(site, q, Fap.Quit))) + [])
  }

  /** The same with a write before it. */
  function WriteAndRead(site: Site, path: blob, d: blob, w: uint64, r: uint64, q: uint64): bytes
    requires site.slot < |site.infos| && |d| < 0x8000_0000
  {
    Encode(Seal(Command(site, w, Fap.CmdWrite(path, |d|)))) + ReadAndQuit(site, path, r, q)
  }

  /** Reading a stored file and quitting. */
  lemma ReadThenQuit(site: Site, tids: nat -> uint64, s: State, path: blob, r: uint64, q: uint64)
    requires Serves(site, s.tree) && 0 !in path && Tokens(path) in s.local.files
    ensures var d := s.local.files[Tokens(path)];
            Continued(site, tids, s, ReadAndQuit(site, path, r, q)) ==
              Result(s.tree, s.local, q, [Command(site, r, Fap.DataOut(FromWord(|d|))), Command(site, q, Fap.Ok)], d,
                     Left)
  {
    hide Continued, Command, Tokens, Encode;
    var third := Encode(Seal(Command(site, q, Fap.Quit))) + [];
    var d := s.local.files[Tokens(path)];
    ReadSendsLocal(site, tids, s, r, path, 0, 0, third);
    QuitSends(site, tids, State(s.tree, s.local, s.drawn + 1, r), q, []);
    assert d + [] == d;
  }

  /** From the bytes of both connections to the bytes of both connections: a client that writes an existing file and
      reads it back gets its data, followed by what the file held beyond it, whatever pieces the data arrived in. The
      directory has the server as the owner, and each command has its answer. */
  lemma WriteThenReadBack(site: Site, tids: nat -> uint64, s: State, path: blob, front: seq<bytes>, behind: seq<bytes>,
                          w: uint64, r: uint64, q: uint64)
    requires Serves(site, s.tree) && RootNamed(s.tree) && s.local.line == IN_STEP && site.user != []
    requires 0 !in path && path != [] && Lookup(s.tree, path).Some?
    requires s.local.data == front + behind && Chunks(front) && |Joined(front)| < 0x8000_0000
    ensures var p, files := Tokens(path), s.local.files;
            var d := Overlay(Joined(front), if p in files then files[p] else []);
            var result := Continued(site, tids, s, WriteAndRead(site, path, Joined(front), w, r, q));
            && result.sent == [Command(site, w, Fap.Ok), Command(site, r, Fap.DataOut(FromWord(|d|))),
                               Command(site, q, Fap.Ok)]
            && result.out == d && result.after == Local(files[p := d], IN_STEP, behind) && result.end == Left
            && HasOwner(s.tree, result.tree, path, site.slot)
  {
    hide Continued, Command, Tokens, HasOwner, Encode, Lookup, ReadAndQuit, Overlay, Joined, Chunks;
    var u := WriteSends(site, tids, s, w, path, ReadAndQuit(site, path, r, q), front, behind);
    var p, files := Tokens(path), s.local.files;
    var d := Overlay(Joined(front), if p in files then files[p] else []);
    ReadThenQuit(site, tids, State(u, Local(files[p := d], IN_STEP, behind), s.drawn + 1, w), path, r, q);
    assert [] + d == d;
  }

  /** What a client sends that makes a file, reads it and quits. */
  function CreateAndRead(site: Site, path: blob, kind: int32, c: uint64, r: uint64, q: uint64): bytes
    requires site.slot < |site.infos|
  {
    Encode(Seal(Command(site, c, Fap.CmdCreate(path, kind)))) + ReadAndQuit(site, path, r, q)
  }

  /** A client that makes a file in an existing directory, reads it back and quits: the directory has it with the
      server as its owner, and the client gets exactly what was there, or nothing. */
  lemma CreateThenRead(site: Site, tids: nat -> uint64, s: State, path: blob, kind: int32, c: uint64, r: uint64,
                       q: uint64) returns (name: blob)
    requires Serves(site, s.tree) && s.local.line == IN_STEP && site.user != []
    requires 0 !in path && SLASH in path && Lookup(s.tree, path).None? && ParentExists(s.tree, path)
    ensures Tokens(path) != [] && name == Tokens(path)[|Tokens(path)| - 1]
    ensures var p, files := Tokens(path), s.local.files;
            var d := if p in files then files[p] else [];
            var result := Continued(site, tids, s, CreateAndRead(site, path, kind, c, r, q));
            && result.sent == [Command(site, c, OneFile(name)), Command(site, r, Fap.DataOut(FromWord(|d|))),
                               Command(site, q, Fap.Ok)]
            && result.out == d && result.after == s.local.(files := files[p := d]) && result.end == Left
            && HasNew(s.tree, result.tree, path, site.slot)
  {
    hide Continued, Command, Tokens, HasNew, OneFile, ParentExists, Encode, Lookup, ReadAndQuit;
    ParentNotSlash(s.tree, path);
    var u, n := CreateSends(site, tids, s, c, path, kind, ReadAndQuit(site, path, r, q));
    name := n;
    var p, files := Tokens(path), s.local.files;
    var d := if p in files then files[p] else [];
    ReadThenQuit(site, tids, State(u, s.local.(files := files[p := d]), s.drawn + 1, c), path, r, q);
    assert [] + d == d;
  }

  /** What a client sends that makes a file and lists its directory. */
  function CreateAndList(site: Site, path: blob, kind: int32, dir: blob, c: uint64, l: uint64): bytes
    requires site.slot < |site.infos|
  {
    Encode(Seal(Command(site, c, Fap.CmdCreate(path, kind)))) +
    (Encode(Seal(Command(site, l, Fap.CmdList(1, dir)))) + [])
  }

  lemma EntriesGrow(t: Tree, u: Tree, p: nat, files: seq<FileInfo>, name: blob)
    requires KidsInRange(t) && KidsInRange(u) && p < |t| && Entries(t, p, files) && |u| == |t| + 1
    requires u[p].kids == t[p].kids + [|t|] && u[|t|].name == name
    requires forall n :: 0 <= n < |t| ==> u[n].name == t[n].name
    ensures Entries(u, p, files + [FileInfo(0, name, Ascii("user"), 0, 0, 0)])
  {
    hide Ascii;
  }

  /** A client that makes a file in an existing directory and then lists it gets the entries that were there, in their
      order, and the new one behind them. */
  lemma CreateThenList(site: Site, tids: nat -> uint64, s: State, path: blob, kind: int32, dir: blob, c: uint64,
                       l: uint64, name: blob, before: seq<FileInfo>, after: countable<FileInfo>)
    requires Serves(site, s.tree) && s.local.line == IN_STEP && site.user != []
    requires 0 !in path && SLASH in path && Lookup(s.tree, path).None? && ParentExists(s.tree, path)
    requires Tokens(path) == Tokens(CString(dir)) + [name]
    requires Lookup(s.tree, CString(dir)).Some? && Entries(s.tree, Lookup(s.tree, CString(dir)).value, before)
    requires after == before + [FileInfo(0, name, Ascii("user"), 0, 0, 0)]
    requires forall k :: 0 <= k < |before| ==> before[k].path != []
    ensures Continued(site, tids, s, CreateAndList(site, path, kind, dir, c, l)).sent ==
              [Command(site, c, OneFile(name)), Command(site, l, Fap.Files(after))]
  {
    hide Continued, Command, Tokens, OneFile, ParentExists, Encode, AddNode, CString, Find, Ascii, Entries;
    ParentNotSlash(s.tree, path);
    var second := Encode(Seal(Command(site, l, Fap.CmdList(1, dir)))) + [];
    var u, n := CreateSends(site, tids, s, c, path, kind, second);
    var p := AddedIsLast(s.tree, path, site.slot);
    var q, files := Tokens(path), s.local.files;
    var local := s.local.(files := files[q := if q in files then files[q] else []]);
    assert q[..|q| - 1] == Tokens(CString(dir));
    TokensAreNames(path);
    EntriesGrow(s.tree, u, p, before, name);
    ListSends(site, tids, State(u, local, s.drawn + 1, c), l, 1, dir, [], after);
    LostSession(site, tids, State(u, local, s.drawn + 2, l), []);
  }
}
