/** Whole exchanges from the client to the directory and back: every message is built, printed, parsed,
    validated and checked at each hop, as src/fap.c, src/fsservd.c, src/dcp.c and src/fsdird.c do it. */
module EndToEnd {
  import opened Wrappers
  import opened Bytes
  import opened Messages
  import opened Codec
  import opened Sections
  import opened Paths
  import opened DirTree
  import opened DirServer
  import opened Transfer
  import opened Answers
  import opened Lines
  import Dcp
  import Fap

  // ---- The two hops that both commands take ------------------------------------------------------------

  /** A client command as the file server dispatches it. */
  function CommandAtServer(x: Session, command: Fap.Body): Option<Fap.Body> {
    var m :- Transmit(FAP, Fap.Message(x.tid, x.sid, x.cid, x.fsid, command));
    if Fap.Accepts(m) then Fap.Dispatch(m) else None
  }

  /** A request to the directory: the new tree, what becomes of the line, and what the server hears. */
  function AskDirectory(t: Tree, infos: seq<ServerInfo>, slot: nat, line: Line, x: Session, b: Dcp.Body): (r: Asked)
    requires Valid(t) && OwnersKnown(t, |infos|) && slot < |infos|
    ensures r.heard.Heard? && r.heard.reply.Some? ==> Headed(DCP, r.heard.reply.value)
  {
    Exchange(t, infos, slot, line, Dcp.Asking(x.dirTid, x.sid, x.fsid, b))
  }

  /** The ids that the file server learned when it registered. */
  predicate Registered(x: Session, infos: seq<ServerInfo>, slot: nat) {
    slot < |infos| && x.sid == infos[slot].id && x.fsid == DIRECTORY_FSID
  }

  lemma CommandArrives(x: Session, command: Fap.Body)
    requires Fap.KindOf(command) == FAP_COMMAND
    ensures CommandAtServer(x, command) == Some(command)
  {
    Fap.BuiltIsAccepted(x.tid, x.sid, x.cid, x.fsid, command);
    Fap.DispatchOfBuilt(x.tid, x.sid, x.cid, x.fsid, command);
  }

  lemma RequestHandled(t: Tree, infos: seq<ServerInfo>, slot: nat, x: Session, b: Dcp.Body)
    requires Valid(t) && OwnersKnown(t, |infos|) && Registered(x, infos, slot)
    requires b.Create? || b.Read? || b.Update? || b.GetReplicas?
    requires Demands(t, b) && Dcp.ReadableBody(b)
    ensures var m := Dcp.Asking(x.dirTid, x.sid, x.fsid, b);
            Transmit(DCP, m) == Some(m) && Answer(t, infos, slot, m) == Some(Handle(t, infos, slot, b))
  {
    hide Transmit, Dcp.Accepts, Dcp.BodyOf;
    Dcp.AskingArrives(x.dirTid, x.sid, x.fsid, b);
  }

  /** On a line in step the directory answers the request that was sent; the answer is heard if its files are named, and
      otherwise leaves the line out of step. */
  lemma DirectoryAnswers(t: Tree, infos: seq<ServerInfo>, slot: nat, x: Session, b: Dcp.Body, u: Tree, reply: Dcp.Body)
    requires Valid(t) && OwnersKnown(t, |infos|) && Registered(x, infos, slot)
    requires b.Create? || b.Read? || b.Update? || b.GetReplicas?
    requires Demands(t, b) && Dcp.ReadableBody(b)
    requires Handle(t, infos, slot, b) == (u, Some(reply))
    ensures AskDirectory(t, infos, slot, IN_STEP, x, b) ==
              if Dcp.ReadableBody(reply) then
                Asked(u, IN_STEP, Heard(Some(Dcp.Message(x.dirTid, x.sid, x.fsid, reply))))
              else Asked(u, Line(true, Unread(Dcp.SectionsOf(reply))), Heard(None))
  {
    hide Exchange, Answer, Transmit, Handle, Dcp.Message, Unread, Dcp.SectionsOf;
    RequestHandled(t, infos, slot, x, b);
    AskingIds(x, b);
    AskedInStep(t, infos, slot, Dcp.Asking(x.dirTid, x.sid, x.fsid, b), u, reply);
  }

  lemma AskingIds(x: Session, b: Dcp.Body)
    ensures Dcp.Asking(x.dirTid, x.sid, x.fsid, b).tid == x.dirTid
  {
  }

  /** A request that the directory's parser cannot read changes nothing, gets no answer, and ends the thread. */
  lemma DirectorySilent(t: Tree, infos: seq<ServerInfo>, slot: nat, x: Session, b: Dcp.Body)
    requires Valid(t) && OwnersKnown(t, |infos|) && slot < |infos| && !Dcp.ReadableBody(b)
    ensures AskDirectory(t, infos, slot, IN_STEP, x, b) == Asked(t, Line(false, []), Waits)
  {
    hide Exchange, Transmit;
    Dcp.AskingArrives(x.dirTid, x.sid, x.fsid, b);
    UnreadRequest(t, infos, slot, Dcp.Asking(x.dirTid, x.sid, x.fsid, b));
  }

  /** After that, no request gets an answer. */
  lemma DirectoryEnded(t: Tree, infos: seq<ServerInfo>, slot: nat, x: Session, b: Dcp.Body)
    requires Valid(t) && OwnersKnown(t, |infos|) && slot < |infos|
    ensures AskDirectory(t, infos, slot, Line(false, []), x, b) == Asked(t, Line(false, []), Waits)
  {
    hide Exchange;
    EndedWaits(t, infos, slot, Dcp.Asking(x.dirTid, x.sid, x.fsid, b));
  }

  // ---- Listing -----------------------------------------------------------------------------------------

  /** list_directory after the directory's reply: checks, then the sections copied one by one. */
  function ListReply(x: Session, reply: Option<Msg>): (r: Option<Msg>)
    requires reply.Some? ==> Headed(DCP, reply.value)
    ensures r.Some? ==> Headed(FAP, r.value)
  {
    if Dcp.CheckResponse(reply, x.dirTid, x.sid, x.fsid, DCP_READ) < 0 || !Dcp.Accepts(reply.value) then None
    else
      var s := Content(reply.value.sections);
      if s == [] || !s[0].Integer? then None
      else
        var n := if s[0].value < 0 then 0 else s[0].value;
        if n >= |s| then None
        else Some(Msg(x.tid, [x.sid, x.cid, x.fsid], FAP_RESPONSE, [Integer(RESP_FILEINFO), s[0]] + s[1..1 + n]))
  }

  /** From what the file server hears to the list at the client. */
  function FilesAtClient(x: Session, heard: Heard): Outcome<Listing>
    requires heard.Heard? && heard.reply.Some? ==> Headed(DCP, heard.reply.value)
  {
    if heard.Waits? then Silent
    else
      match ListReply(x, heard.reply)
      case None => Silent
      case Some(response) => ListResult(x, Transmit(FAP, response))
  }

  datatype Call<T> = Call(tree: Tree, line: Line, result: Outcome<T>)

  /** fap_list from the call to its result. */
  function List(t: Tree, infos: seq<ServerInfo>, slot: nat, line: Line, x: Session, path: blob): Call<Listing>
    requires Valid(t) && OwnersKnown(t, |infos|) && slot < |infos|
  {
    var command := CommandAtServer(x, Fap.CmdList(1, path));
    if command.None? || !command.value.CmdList? then Call(t, line, Silent)
    else
      var asked := AskDirectory(t, infos, slot, line, x, Dcp.Read(command.value.recurse, command.value.path));
      Call(asked.tree, asked.line, FilesAtClient(x, asked.heard))
  }

  lemma ReplySections(files: countable<FileInfo>)
    ensures var s := Dcp.SectionsOf(Dcp.FileList(files));
            && Content(s) == s && |s| == 1 + |files| && s[0] == Integer(|files|)
            && [Integer(RESP_FILEINFO), s[0]] + s[1..1 + |files|] == Fap.SectionsOf(Fap.Files(files))
  {
    var s := Dcp.SectionsOf(Dcp.FileList(files));
    ContentOfOpen(s);
    assert s[1..1 + |files|] == FileSections(files);
    assert [Integer(RESP_FILEINFO), s[0]] == [Integer(RESP_FILEINFO), Integer(|files|)];
  }

  /** The directory's reply is translated section by section. */
  lemma ListReplyOf(x: Session, files: countable<FileInfo>)
    ensures ListReply(x, Some(Dcp.Message(x.dirTid, x.sid, x.fsid, Dcp.FileList(files))))
         == Some(Fap.Message(x.tid, x.sid, x.cid, x.fsid, Fap.Files(files)))
  {
    Dcp.ReplyAccepted(x.dirTid, x.sid, x.fsid, DCP_READ, Dcp.FileList(files));
    ReplySections(files);
  }

  lemma FilesInOf(files: seq<FileInfo>)
    ensures FilesIn(FileSections(files)) == files
  {
    FileSectionsInjective(FilesIn(FileSections(files)), files);
  }

  lemma Dropped(p: seq<Section>, f: seq<Section>)
    ensures (p + f)[|p|..] == f
    ensures forall i :: |p| <= i < |p + f| ==> (p + f)[i] in f
  {
    forall i | |p| <= i < |p + f| ensures (p + f)[i] in f {
      assert (p + f)[i] == f[i - |p|];
    }
  }

  lemma ResponseSections(files: countable<FileInfo>)
    ensures var s := Fap.SectionsOf(Fap.Files(files));
            && Content(s) == s && |s| == 2 + |files| && s[1] == Integer(|files|)
            && s[2..] == FileSections(files)
            && (forall i :: 2 <= i < |s| ==> s[i].File?)
  {
    ContentOfOpen(Fap.SectionsOf(Fap.Files(files)));
    Dropped([Integer(RESP_FILEINFO), Integer(|files|)], FileSections(files));
  }

  lemma ListResultOf(x: Session, files: countable<FileInfo>)
    requires AllNamed(files)
    ensures ListResult(x, Transmit(FAP, Fap.Message(x.tid, x.sid, x.cid, x.fsid, Fap.Files(files))))
         == Done(Listing(|files|, files))
  {
    hide Transmit, GoodReply;
    BuiltPasses(x, Fap.Files(files));
    ResponseSections(files);
    FilesInOf(files);
    var s := Fap.SectionsOf(Fap.Files(files));
    assert s[2..2 + |files|] == s[2..];
  }

  lemma FilesArrive(x: Session, files: countable<FileInfo>)
    requires AllNamed(files)
    ensures FilesAtClient(x, Heard(Some(Dcp.Message(x.dirTid, x.sid, x.fsid, Dcp.FileList(files)))))
         == Done(Listing(|files|, files))
  {
    hide ListReply, ListResult, Transmit;
    ListReplyOf(x, files);
    ListResultOf(x, files);
  }

  /** The answers of this program's file server to a listing have every section that fap_list accesses. */
  lemma ListReplyHasAll(x: Session, reply: Option<Msg>)
    requires reply.Some? ==> Headed(DCP, reply.value)
    ensures FilesAtClient(x, Heard(reply)) != Missing
  {
    hide Transmit, GoodReply;
    var response := ListReply(x, reply);
    if response.Some? {
      var m := Transmit(FAP, response.value);
      Transmitted(FAP, response.value);
      ListMissingIff(x, m);
      NothingPasses(x);
      if m.Some? && GoodReply(x, m) {
        ContentOfOpen(m.value.sections);
        GoodReplySections(x, m.value);
      }
    }
  }

  lemma ListFromAnswer(t: Tree, infos: seq<ServerInfo>, slot: nat, line: Line, x: Session, path: blob)
    requires Valid(t) && OwnersKnown(t, |infos|) && slot < |infos|
    ensures var asked := AskDirectory(t, infos, slot, line, x, Dcp.Read(1, path));
            List(t, infos, slot, line, x, path) == Call(asked.tree, asked.line, FilesAtClient(x, asked.heard))
  {
    hide AskDirectory, FilesAtClient, CommandAtServer;
    CommandArrives(x, Fap.CmdList(1, path));
  }

  lemma NoFilesArrive(x: Session)
    ensures FilesAtClient(x, Heard(None)) == Silent
  {
  }

  lemma ReadHandled(t: Tree, infos: seq<ServerInfo>, slot: nat, path: blob)
    requires Valid(t) && OwnersKnown(t, |infos|) && slot < |infos| && Demands(t, Dcp.Read(1, path))
    ensures Lookup(t, CString(path)).Some?
    ensures var files := ChildInfos(t, Lookup(t, CString(path)).value);
            |files| < 0x8000_0000 && Handle(t, infos, slot, Dcp.Read(1, path)) == (t, Some(Dcp.FileList(files)))
  {
  }

  /** On a line in step, listing an existing directory gives the client exactly its entries, in sibling order. There
      is no answer exactly when one of them has an empty name, and then the line is out of step. */
  lemma ListIsChildren(t: Tree, infos: seq<ServerInfo>, slot: nat, x: Session, path: blob)
    requires Valid(t) && OwnersKnown(t, |infos|) && Registered(x, infos, slot)
    requires Demands(t, Dcp.Read(1, path))
    ensures var files := ChildInfos(t, Lookup(t, CString(path)).value);
            List(t, infos, slot, IN_STEP, x, path) ==
              if AllNamed(files) then Call(t, IN_STEP, Done(Listing(|files|, files)))
              else Call(t, Line(true, Unread(Dcp.SectionsOf(Dcp.FileList(files)))), Silent)
  {
    hide AskDirectory, List, FilesAtClient, Dcp.Message, Handle, ChildInfos, Unread, Dcp.SectionsOf;
    ReadHandled(t, infos, slot, path);
    var files := ChildInfos(t, Lookup(t, CString(path)).value);
    DirectoryAnswers(t, infos, slot, x, Dcp.Read(1, path), t, Dcp.FileList(files));
    ListFromAnswer(t, infos, slot, IN_STEP, x, path);
    if AllNamed(files) {
      FilesArrive(x, files);
    } else {
      NoFilesArrive(x);
    }
  }

  /** The names that the client sees are the children's, in sibling order. */
  lemma NamedChildren(t: Tree, n: nat)
    requires Valid(t) && n < |t|
    ensures forall k :: 0 <= k < |t[n].kids| ==> ChildInfos(t, n)[k].path == t[t[n].kids[k]].name
    ensures AllNamed(ChildInfos(t, n)) <==> forall k :: 0 <= k < |t[n].kids| ==> t[t[n].kids[k]].name != []
  {
    var files := ChildInfos(t, n);
    assert forall j :: 0 <= j < |files| ==> files[j] == NodeInfo(t[t[n].kids[j]].name);
    if AllNamed(files) {
      assert forall j :: 0 <= j < |files| ==> Named(files[j]);
    }
  }

  // ---- Creating ----------------------------------------------------------------------------------------

  /** create_file of the file server after the directory's reply; the second part says whether it makes the
      local file. */
  function CreateReply(x: Session, reply: Option<Msg>): (Option<Msg>, bool)
    requires reply.Some? ==> Headed(DCP, reply.value)
  {
    var ret := Dcp.CheckResponse(reply, x.dirTid, x.sid, x.fsid, DCP_CREATE);
    if reply.Some? && ret == -5 && IntegerAt(reply.value.sections, 0) == ERR_EXISTS then
      (Some(Fap.Message(x.tid, x.sid, x.cid, x.fsid, Fap.Failure(ERR_EXISTS, Ascii("file already exists")))), false)
    else if ret < 0 || !Dcp.Accepts(reply.value) then (None, false)
    else
      var s := Content(reply.value.sections);
      if |s| < 2 then (None, true)
      else (Some(Msg(x.tid, [x.sid, x.cid, x.fsid], FAP_RESPONSE, [Integer(RESP_FILEINFO), s[0], s[1]])), true)
  }

  /** From what the file server hears to the client's result, and whether the local file is made. */
  function CreatedAtClient(x: Session, heard: Heard): (bool, Outcome<int>)
    requires heard.Heard? && heard.reply.Some? ==> Headed(DCP, heard.reply.value)
  {
    if heard.Waits? then (false, Silent)
    else
      var (response, local) := CreateReply(x, heard.reply);
      (local, if response.None? then Silent else CreateResult(x, Transmit(FAP, response.value)))
  }

  datatype Created = Created(tree: Tree, line: Line, local: bool, result: Outcome<int>)

  /** fap_create from the call to its result, with the user that the client logged in as. */
  function Create(t: Tree, infos: seq<ServerInfo>, slot: nat, line: Line, x: Session, path: blob, user: blob): Created
    requires Valid(t) && OwnersKnown(t, |infos|) && slot < |infos|
  {
    match CommandAtServer(x, Fap.CmdCreate(path, 1))
    case None => Created(t, line, false, Silent)
    case Some(command) =>
      if !command.CmdCreate? then Created(t, line, false, Silent) else
        var info := FileInfo(0, CString(command.path), user, 0, 0, 0);
        var asked := AskDirectory(t, infos, slot, line, x, Dcp.Create(info));
        var (local, result) := CreatedAtClient(x, asked.heard);
        Created(asked.tree, asked.line, local, result)
  }

  /** create_file copies sections 0 and 1 of a reply that passes; the second is missing exactly when the count announces
      nothing, and then nothing is sent. */
  lemma CreateReplyMissingIff(x: Session, m: Msg)
    requires Headed(DCP, m)
    ensures CreateReply(x, Some(m)) == (None, true) <==>
              && Dcp.CheckResponse(Some(m), x.dirTid, x.sid, x.fsid, DCP_CREATE) == 0 && Dcp.Accepts(m)
              && IntegerAt(Content(m.sections), 0) <= 0
  {
    if Dcp.Accepts(m) && m.kind == DCP_FILEINFO {
      Dcp.CountedEntries(m);
    }
  }

  /** The answers of this program's file server to a creation have the section that fap_create accesses. */
  lemma CreateReplyHasAll(x: Session, reply: Option<Msg>)
    requires reply.Some? ==> Headed(DCP, reply.value)
    ensures CreatedAtClient(x, Heard(reply)).1 != Missing
  {
    hide Transmit, GoodReply, Refusal;
    var response := CreateReply(x, reply).0;
    if response.Some? {
      var m := Transmit(FAP, response.value);
      Transmitted(FAP, response.value);
      SecondMissingIff(x, m);
      NothingPasses(x);
      if m.Some? && GoodReply(x, m) {
        ContentOfOpen(m.value.sections);
        GoodReplySections(x, m.value);
      }
    }
  }

  lemma ExistsReply(x: Session)
    ensures CreateReply(x, Some(Dcp.Message(x.dirTid, x.sid, x.fsid, Refusal(ERR_EXISTS))))
         == (Some(Fap.Message(x.tid, x.sid, x.cid, x.fsid, Fap.Failure(ERR_EXISTS, Ascii("file already exists")))),
             false)
  {
    Dcp.OwnIdsPass(x.dirTid, x.sid, x.fsid, DCP_CREATE, Refusal(ERR_EXISTS));
  }

  lemma ErrorArrives(x: Session, code: int32, text: blob)
    ensures var m := Fap.Message(x.tid, x.sid, x.cid, x.fsid, Fap.Failure(code, text));
            Transmit(FAP, m) == Some(m) && Fap.CheckResponse(Some(m), x.tid, x.sid, x.cid, x.fsid, FAP_COMMAND) == -6
  {
    hide Transmit;
    Fap.BuiltIsAccepted(x.tid, x.sid, x.cid, x.fsid, Fap.Failure(code, text));
  }

  lemma ExistsReported(x: Session)
    ensures CreatedAtClient(x, Heard(Some(Dcp.Message(x.dirTid, x.sid, x.fsid, Refusal(ERR_EXISTS))))) ==
              (false, Error(-6))
  {
    hide Transmit, Fap.CheckResponse, Fap.Message, CreateReply, Refusal, Dcp.Message;
    ExistsReply(x);
    ErrorArrives(x, ERR_EXISTS, Ascii("file already exists"));
  }

  lemma CreateReplyOf(x: Session, fi: FileInfo)
    ensures CreateReply(x, Some(Dcp.Message(x.dirTid, x.sid, x.fsid, Dcp.FileList([fi]))))
         == (Some(Fap.Message(x.tid, x.sid, x.cid, x.fsid, Fap.Files([fi]))), true)
  {
    var b := Dcp.FileList([fi]);
    Dcp.ReplyAccepted(x.dirTid, x.sid, x.fsid, DCP_CREATE, b);
    ContentOfOpen(Dcp.SectionsOf(b));
    assert Dcp.SectionsOf(b) == [Integer(1), File(fi)];
    assert Fap.SectionsOf(Fap.Files([fi])) == [Integer(RESP_FILEINFO), Integer(1), File(fi)];
  }

  /** The client compares the count section, which is 1, with the number of the OK response, which is 1 too. */
  lemma CreateResultOf(x: Session, fi: FileInfo)
    requires Named(fi)
    ensures CreateResult(x, Transmit(FAP, Fap.Message(x.tid, x.sid, x.cid, x.fsid, Fap.Files([fi])))) == Done(0)
  {
    hide Transmit, GoodReply;
    BuiltPasses(x, Fap.Files([fi]));
  }

  lemma CreationReported(x: Session, fi: FileInfo)
    requires Named(fi)
    ensures CreatedAtClient(x, Heard(Some(Dcp.Message(x.dirTid, x.sid, x.fsid, Dcp.FileList([fi]))))) ==
              (true, Done(0))
  {
    hide Transmit, CreateReply, CreateResult;
    CreateReplyOf(x, fi);
    CreateResultOf(x, fi);
  }

  lemma NothingReported(x: Session)
    ensures CreatedAtClient(x, Waits) == (false, Silent) == CreatedAtClient(x, Heard(None))
  {
  }

  function CreateRequest(path: blob, user: blob): Dcp.Body {
    Dcp.Create(FileInfo(0, path, user, 0, 0, 0))
  }

  lemma CreateFromAnswer(t: Tree, infos: seq<ServerInfo>, slot: nat, line: Line, x: Session, path: blob, user: blob)
    requires Valid(t) && OwnersKnown(t, |infos|) && slot < |infos| && 0 !in path
    ensures var asked := AskDirectory(t, infos, slot, line, x, CreateRequest(path, user));
            var (local, result) := CreatedAtClient(x, asked.heard);
            Create(t, infos, slot, line, x, path, user) == Created(asked.tree, asked.line, local, result)
  {
    hide AskDirectory, CreatedAtClient, CommandAtServer;
    CommandArrives(x, Fap.CmdCreate(path, 1));
    CStringOfText(path);
  }

  lemma ExistingAsked(t: Tree, infos: seq<ServerInfo>, slot: nat, x: Session, path: blob, user: blob)
    requires Valid(t) && OwnersKnown(t, |infos|) && Registered(x, infos, slot)
    requires 0 !in path && path != [] && user != [] && Lookup(t, path).Some?
    ensures AskDirectory(t, infos, slot, IN_STEP, x, CreateRequest(path, user)) ==
              Asked(t, IN_STEP, Heard(Some(Dcp.Message(x.dirTid, x.sid, x.fsid, Refusal(ERR_EXISTS)))))
  {
    hide AskDirectory;
    CStringOfText(path);
    DirectoryAnswers(t, infos, slot, x, CreateRequest(path, user), t, Refusal(ERR_EXISTS));
  }

  function NewReply(path: blob): Dcp.Body
    requires SLASH in path
  {
    Dcp.FileList([NodeInfo(AfterLastSlash(path))])
  }

  lemma NewHandled(t: Tree, infos: seq<ServerInfo>, slot: nat, path: blob, user: blob)
    requires Valid(t) && OwnersKnown(t, |infos|) && slot < |infos|
    requires 0 !in path && Lookup(t, path).None? && SLASH in path
    ensures Demands(t, CreateRequest(path, user))
    ensures Handle(t, infos, slot, CreateRequest(path, user)) == (AddNode(t, path, Some(slot)), Some(NewReply(path)))
  {
    CStringOfText(path);
  }

  lemma NewReplyReadable(path: blob)
    requires SLASH in path
    ensures Dcp.ReadableBody(NewReply(path)) <==> !EndsInSlash(path)
  {
    NameIsLastToken(path);
    assert Dcp.ReadableBody(NewReply(path)) <==> Named(NewReply(path).files[0]);
  }

  lemma NewAsked(t: Tree, infos: seq<ServerInfo>, slot: nat, x: Session, path: blob, user: blob)
    requires Valid(t) && OwnersKnown(t, |infos|) && Registered(x, infos, slot)
    requires 0 !in path && user != [] && Lookup(t, path).None? && SLASH in path
    ensures AskDirectory(t, infos, slot, IN_STEP, x, CreateRequest(path, user)) ==
              if EndsInSlash(path) then
                Asked(AddNode(t, path, Some(slot)), Line(true, Unread(Dcp.SectionsOf(NewReply(path)))), Heard(None))
              else
                Asked(AddNode(t, path, Some(slot)), IN_STEP,
                      Heard(Some(Dcp.Message(x.dirTid, x.sid, x.fsid, NewReply(path)))))
  {
    hide AskDirectory, Handle, Unread, Dcp.SectionsOf, Dcp.Message;
    NewHandled(t, infos, slot, path, user);
    NewReplyReadable(path);
    DirectoryAnswers(t, infos, slot, x, CreateRequest(path, user), AddNode(t, path, Some(slot)), NewReply(path));
  }

  /** Creating from the client, on a line in step: an existing path is reported as such, a new one succeeds and is made
      locally. There is no answer exactly when the user name or the path is empty, which ends the directory's thread,
      or a new path ends in a slash, which leaves the line out of step. */
  lemma CreateOutcome(t: Tree, infos: seq<ServerInfo>, slot: nat, x: Session, path: blob, user: blob)
    requires Valid(t) && OwnersKnown(t, |infos|) && Registered(x, infos, slot)
    requires 0 !in path && (Lookup(t, path).None? ==> SLASH in path)
    ensures var r := Create(t, infos, slot, IN_STEP, x, path, user);
            if path == [] || user == [] then r == Created(t, Line(false, []), false, Silent)
            else if Lookup(t, path).Some? then r == Created(t, IN_STEP, false, Error(-6))
            else if EndsInSlash(path) then
              && r == Created(AddNode(t, path, Some(slot)), Line(true, r.line.unread), false, Silent)
              && Slipped(r.line.unread)
            else r == Created(AddNode(t, path, Some(slot)), IN_STEP, true, Done(0))
  {
    hide AskDirectory, CreatedAtClient, Create, Unread, Slipped, Dcp.Message, Dcp.SectionsOf, NewReply;
    CreateFromAnswer(t, infos, slot, IN_STEP, x, path, user);
    NothingReported(x);
    if path == [] || user == [] {
      DirectorySilent(t, infos, slot, x, CreateRequest(path, user));
    } else if Lookup(t, path).Some? {
      ExistingAsked(t, infos, slot, x, path, user);
      ExistsReported(x);
    } else {
      NewAsked(t, infos, slot, x, path, user);
      NewReplyIs(path);
      if !EndsInSlash(path) {
        CreationReported(x, NodeInfo(AfterLastSlash(path)));
      } else {
        UnreadSlips(NewReply(path));
      }
    }
  }

  lemma NewReplyIs(path: blob)
    requires SLASH in path
    ensures NewReply(path) == Dcp.FileList([NodeInfo(AfterLastSlash(path))]) && OfDirectory(NewReply(path))
    ensures Dcp.ReadableBody(NewReply(path)) <==> !EndsInSlash(path)
    ensures Named(NodeInfo(AfterLastSlash(path))) <==> !EndsInSlash(path)
  {
    NewReplyReadable(path);
    NameIsLastToken(path);
  }

  /** On a line out of step the next call gets no answer, whatever it asks for, and no local file is made or written. */
  lemma OutOfStepIsSilent(t: Tree, infos: seq<ServerInfo>, slot: nat, line: Line, x: Session, path: blob, user: blob)
    requires Valid(t) && OwnersKnown(t, |infos|) && Registered(x, infos, slot) && x.sid != 0
    requires Slipped(line.unread) && 0 !in path
    ensures List(t, infos, slot, line, x, path).result == Silent
    ensures Create(t, infos, slot, line, x, path, user).result == Silent
    ensures !Create(t, infos, slot, line, x, path, user).local
    ensures var heard := AskDirectory(t, infos, slot, line, x, WriteRequest(path, user)).heard;
            heard.Heard? ==> WriteReply(x, heard.reply) == (None, false)
  {
    hide Exchange, List, Create, Slipped, Dcp.CheckResponse;
    ListFromAnswer(t, infos, slot, line, x, path);
    CreateFromAnswer(t, infos, slot, line, x, path, user);
    var read, create, update := Dcp.Read(1, path), CreateRequest(path, user), WriteRequest(path, user);
    SlippedHears(t, infos, slot, line, Dcp.Asking(x.dirTid, x.sid, x.fsid, read), x.dirTid, x.sid, x.fsid,
                 DCP_READ);
    SlippedHears(t, infos, slot, line, Dcp.Asking(x.dirTid, x.sid, x.fsid, create), x.dirTid, x.sid, x.fsid,
                 DCP_CREATE);
    SlippedHears(t, infos, slot, line, Dcp.Asking(x.dirTid, x.sid, x.fsid, update), x.dirTid, x.sid, x.fsid,
                 DCP_UPDATE);
  }

  lemma TrailingSlashTokens()
    ensures var path: blob := [SLASH, 120, SLASH];
            && Tokens([SLASH]) == [] && Tokens(path) == [[120]] && AfterLastSlash(path) == []
  {
    hide Tokens, LastSlash;
    var path: bytes := [SLASH, 120, SLASH];
    assert path == [SLASH, 120] + [SLASH];
    assert [SLASH, 120] == [] + [SLASH] + [120];
    assert [SLASH] == [] + [SLASH];
    TrailingSlash([SLASH, 120]);
    TrailingSlash([]);
    TokensAtSlash([], [120]);
    TokensOfName([120]);
    NoTokens();
    NameIsLastToken(path);
  }

  lemma TrailingSlashTree(slot: nat)
    ensures var path: blob := [SLASH, 120, SLASH];
            && Tokens([SLASH]) == [] && Lookup(InitialTree(), path).None?
            && AddNode(InitialTree(), path, Some(slot)) == OneEntry([], slot)
  {
    hide Tokens, LastSlash;
    TrailingSlashTokens();
    EmptyDirectory([[120]]);
    assert Deepest(InitialTree(), 0, [[120]]) == 0;
  }

  /** A concrete case: after creating /x/ in a new directory, a listing of the root by that server is not answered for
      what was left of the answer to the creation, and one by another server for the name of the entry. */
  lemma TrailingSlashSilencesListing(infos: seq<ServerInfo>, slot: nat, x: Session, user: blob)
    requires Registered(x, infos, slot) && user != [] && x.sid != 0
    ensures var r := Create(InitialTree(), infos, slot, IN_STEP, x, [SLASH, 120, SLASH], user);
            && r.result == Silent && Valid(r.tree) && OwnersKnown(r.tree, |infos|)
            && Slipped(r.line.unread) && List(r.tree, infos, slot, r.line, x, [SLASH]).result == Silent
            && Demands(r.tree, Dcp.Read(1, [SLASH]))
            && List(r.tree, infos, slot, IN_STEP, x, [SLASH]).result == Silent
  {
    hide Create, List, Slipped;
    var path: blob := [SLASH, 120, SLASH];
    TrailingSlashTree(slot);
    CreateOutcome(InitialTree(), infos, slot, x, path, user);
    AddNodeKeeps(InitialTree(), path, slot, |infos|);
    var t := AddNode(InitialTree(), path, Some(slot));
    CStringOfText([SLASH]);
    assert Lookup(t, [SLASH]) == Some(0);
    assert !Named(ChildInfos(t, 0)[0]);
    ListIsChildren(t, infos, slot, x, [SLASH]);
    var line := Create(InitialTree(), infos, slot, IN_STEP, x, path, user).line;
    OutOfStepIsSilent(t, infos, slot, line, x, [SLASH], user);
  }

  // ---- Writing -----------------------------------------------------------------------------------------

  /** write_file of the file server after the directory's reply: an error to pass on, or nothing, or (when the
      second part holds) the data is received and an OK goes to the client. */
  function WriteReply(x: Session, reply: Option<Msg>): (Option<Fap.Body>, bool)
    requires reply.Some? ==> Headed(DCP, reply.value)
  {
    var ret := Dcp.CheckResponse(reply, x.dirTid, x.sid, x.fsid, DCP_UPDATE);
    if ret == -5 then (Some(Fap.Failure(IntegerAt(reply.value.sections, 0), Ascii("error"))), false)
    else if ret < 0 || !Dcp.Accepts(reply.value) then (None, false)
    else (Some(Fap.Ok), true)
  }

  function WriteRequest(path: blob, user: blob): Dcp.Body {
    Dcp.Update(FileInfo(0, path, user, 0, 0, 0))
  }

  /** What the directory makes of an update. */
  function UpdateOutcome(t: Tree, slot: nat, path: blob): (Tree, Dcp.Body)
    requires Valid(t)
  {
    var n := Lookup(t, path);
    if n.Some? then (SetOwner(t, n.value, slot), Dcp.FileList([NodeInfo(t[n.value].name)]))
    else (t, Refusal(ERR_FILENOTFOUND))
  }

  lemma UpdateHandled(t: Tree, infos: seq<ServerInfo>, slot: nat, path: blob, user: blob)
    requires Valid(t) && OwnersKnown(t, |infos|) && slot < |infos| && RootNamed(t) && 0 !in path
    ensures Demands(t, WriteRequest(path, user))
    ensures var (u, b) := UpdateOutcome(t, slot, path);
            Handle(t, infos, slot, WriteRequest(path, user)) == (u, Some(b)) && Dcp.ReadableBody(b)
  {
    LookedUpIsNamed(t, path);
    CStringOfText(path);
  }

  lemma WriteAsked(t: Tree, infos: seq<ServerInfo>, slot: nat, x: Session, path: blob, user: blob)
    requires Valid(t) && OwnersKnown(t, |infos|) && Registered(x, infos, slot) && RootNamed(t)
    requires 0 !in path && path != [] && user != []
    ensures var (u, b) := UpdateOutcome(t, slot, path);
            AskDirectory(t, infos, slot, IN_STEP, x, WriteRequest(path, user)) ==
              Asked(u, IN_STEP, Heard(Some(Dcp.Message(x.dirTid, x.sid, x.fsid, b))))
  {
    hide AskDirectory, Handle, Demands, UpdateOutcome, Dcp.Message;
    var (u, b) := UpdateOutcome(t, slot, path);
    UpdateHandled(t, infos, slot, path, user);
    DirectoryAnswers(t, infos, slot, x, WriteRequest(path, user), u, b);
  }

  lemma WriteReplyOf(x: Session, b: Dcp.Body)
    requires b.FileList? || b == Refusal(ERR_FILENOTFOUND)
    ensures WriteReply(x, Some(Dcp.Message(x.dirTid, x.sid, x.fsid, b))) ==
            if b.FileList? then (Some(Fap.Ok), true)
            else (Some(Fap.Failure(ERR_FILENOTFOUND, Ascii("error"))), false)
  {
    if b.FileList? {
      Dcp.ReplyAccepted(x.dirTid, x.sid, x.fsid, DCP_UPDATE, b);
    } else {
      Dcp.OwnIdsPass(x.dirTid, x.sid, x.fsid, DCP_UPDATE, b);
    }
  }

  /** On a line in step a write goes through exactly when the directory knows the path, and the client is told so
      otherwise. */
  lemma WriteOutcome(t: Tree, infos: seq<ServerInfo>, slot: nat, x: Session, path: blob, user: blob)
    requires Valid(t) && OwnersKnown(t, |infos|) && Registered(x, infos, slot) && RootNamed(t)
    requires 0 !in path && path != [] && user != []
    ensures var r := AskDirectory(t, infos, slot, IN_STEP, x, WriteRequest(path, user));
            && r.heard.Heard? && r.line == IN_STEP
            && (if Lookup(t, path).Some? then
                  && r.tree == SetOwner(t, Lookup(t, path).value, slot)
                  && WriteReply(x, r.heard.reply) == (Some(Fap.Ok), true)
                else
                  && r.tree == t
                  && WriteReply(x, r.heard.reply) == (Some(Fap.Failure(ERR_FILENOTFOUND, Ascii("error"))), false))
  {
    hide AskDirectory, WriteReply, Dcp.Message;
    WriteAsked(t, infos, slot, x, path, user);
    if Lookup(t, path).Some? {
      WriteReplyOf(x, Dcp.FileList([NodeInfo(t[Lookup(t, path).value].name)]));
    } else {
      WriteReplyOf(x, Refusal(ERR_FILENOTFOUND));
    }
  }

  /** From write_file's answer to the client's result. */
  function WrittenAtClient(x: Session, answer: Option<Fap.Body>): Outcome<int> {
    match answer
    case None => Silent
    case Some(b) => WriteResult(x, Transmit(FAP, Fap.Message(x.tid, x.sid, x.cid, x.fsid, b)))
  }

  lemma OkReported(x: Session)
    ensures WrittenAtClient(x, Some(Fap.Ok)) == Done(0)
  {
    hide Transmit, GoodReply;
    BuiltPasses(x, Fap.Ok);
  }

  lemma FailureReported(x: Session, code: int32)
    ensures WrittenAtClient(x, Some(Fap.Failure(code, Ascii("error")))) == Error(-6)
  {
    hide Transmit, Fap.CheckResponse, Fap.Accepts;
    ErrorArrives(x, code, Ascii("error"));
  }

  /** The client's write succeeds exactly when the directory knows the path, and is an error otherwise. */
  lemma WriteReported(t: Tree, infos: seq<ServerInfo>, slot: nat, x: Session, path: blob, user: blob, length: int32)
    requires Valid(t) && OwnersKnown(t, |infos|) && Registered(x, infos, slot) && RootNamed(t)
    requires 0 !in path && path != [] && user != []
    ensures CommandAtServer(x, Fap.CmdWrite(path, length)) == Some(Fap.CmdWrite(path, length))
    ensures var heard := AskDirectory(t, infos, slot, IN_STEP, x, WriteRequest(path, user)).heard;
            && heard.Heard?
            && WrittenAtClient(x, WriteReply(x, heard.reply).0) == if Lookup(t, path).Some? then Done(0) else Error(-6)
  {
    hide AskDirectory, WriteReply, WrittenAtClient, CommandAtServer;
    CommandArrives(x, Fap.CmdWrite(path, length));
    WriteOutcome(t, infos, slot, x, path, user);
    OkReported(x);
    FailureReported(x, ERR_FILENOTFOUND);
  }

  // ---- Reading -----------------------------------------------------------------------------------------

  /** The hosts that ask_file tries, after the directory's reply; none when a check fails. */
  function ReplicaHosts(x: Session, reply: Option<Msg>): seq<blob>
    requires reply.Some? ==> Headed(DCP, reply.value)
  {
    if Dcp.CheckResponse(reply, x.dirTid, x.sid, x.fsid, DCP_GET_REPLICAS) < 0 || !Dcp.Accepts(reply.value) then []
    else if reply.value.kind != DCP_REPLICA_STATUS then []
    else Dcp.BodyOf(reply.value).hosts
  }

  /** The size of a file as the int that announces it: the low 32 bits, as a signed number. */
  function Announced(size: uint32): int32 {
    FromWord(size)
  }

  /** serve_file once the local file is there: the announcement, and the bytes for the data connection. */
  function FileResponse(s: Store, path: blob): Option<(Fap.Body, blob)> {
    if Tokens(path) in s then Some((Fap.DataOut(Announced(|s[Tokens(path)]|)), s[Tokens(path)])) else None
  }

  /** The client gets the announced number. */
  lemma CountArrives(x: Session, n: int32)
    ensures ReadCount(x, Transmit(FAP, Fap.Message(x.tid, x.sid, x.cid, x.fsid, Fap.DataOut(n)))) == Done(n)
  {
    hide Transmit, GoodReply;
    BuiltPasses(x, Fap.DataOut(n));
  }

  /** A count that the signed field cannot hold comes out negative, and no data ever adds up to that. */
  lemma ReachesAnnounced(chunks: seq<bytes>, size: uint32)
    requires |Joined(chunks)| == size
    ensures Reaches(chunks, Announced(size)) <==> size < 0x8000_0000
  {
    if size < 0x8000_0000 {
      ExactStreamReaches(chunks);
    }
  }

  /** The client is told the size and receives exactly the stored bytes, however they arrive in pieces: the
      receive loop ends exactly when the size fits a signed int, and what it has then copied is the file. */
  lemma ReadDelivers(x: Session, s: Store, path: blob, chunks: seq<bytes>, written: bytes)
    requires Tokens(path) in s && Chunks(chunks) && Joined(chunks) == s[Tokens(path)]
    ensures var (b, d) := FileResponse(s, path).value;
            var n := ReadCount(x, Transmit(FAP, Fap.Message(x.tid, x.sid, x.cid, x.fsid, b)));
            && n.Done?
            && (Reaches(chunks, n.value) <==> |d| < 0x8000_0000)
            && (IsPrefixOf(written, chunks) && |written| == n.value ==> written == s[Tokens(path)])
  {
    var d := s[Tokens(path)];
    CountArrives(x, Announced(|d|));
    ReachesAnnounced(chunks, |d|);
    if IsPrefixOf(written, chunks) && |written| == Announced(|d|) {
      ExactStreamIsCopied(chunks, written);
    }
  }

  /** What is written is what is read: after a write the client reads back its data, followed by what the file held
      beyond it. */
  lemma WriteReadsBack(x: Session, before: Store, path: blob, data: blob, chunks: seq<bytes>, written: bytes)
    requires var after := Written(before, Tokens(path), data);
             Chunks(chunks) && Joined(chunks) == after[Tokens(path)]
    ensures var (b, d) := FileResponse(Written(before, Tokens(path), data), path).value;
            var n := ReadCount(x, Transmit(FAP, Fap.Message(x.tid, x.sid, x.cid, x.fsid, b)));
            && n.Done?
            && (Reaches(chunks, n.value) <==>
                  |data| < 0x8000_0000 && |Contents(before, Tokens(path))| < 0x8000_0000)
            && (IsPrefixOf(written, chunks) && |written| == n.value ==>
                  && data <= written
                  && written[|data|..] ==
                       if |data| < |Contents(before, Tokens(path))| then Contents(before, Tokens(path))[|data|..]
                       else [])
  {
    var after := Written(before, Tokens(path), data);
    ReadDelivers(x, after, path, chunks, written);
  }

  // ---- Registering -------------------------------------------------------------------------------------

  /** What the directory remembers from a hello. */
  datatype Hello = Hello(name: blob, capacity: int32, usage: int32, fileCount: int32)

  /** dcp_open against dcp_accept: what each side has learned, or None if one of them gives up. */
  function Register(id: uint64, tid: uint64, hello: Hello): Option<(Hello, uint64, uint64)> {
    var m :- Transmit(DCP, Dcp.Message(tid, 0, 0, Dcp.Hello(hello.name, hello.capacity, hello.usage, hello.fileCount)));
    if m.kind != DCP_HELLO || !Dcp.Accepts(m) then None else
      var b := Dcp.BodyOf(m);
      var r :- Transmit(DCP, Dcp.Message(m.tid, id, DIRECTORY_FSID, Dcp.HelloResponse(1)));
      if Dcp.CheckResponse(Some(r), tid, 0, 0, DCP_HELLO) < 0 || !Dcp.Accepts(r) then None
      else Some((Hello(CString(b.name), b.capacity, b.usage, b.fileCount), r.ids[0], r.ids[1]))
  }

  /** A file server that registers ends up with the id of its slot and the directory's file system id, and the
      directory with the server's figures. */
  lemma RegisterLearnsIds(id: uint64, tid: uint64, hello: Hello)
    requires 0 !in hello.name
    ensures Register(id, tid, hello) == Some((hello, id, DIRECTORY_FSID))
  {
    var b := Dcp.Hello(hello.name, hello.capacity, hello.usage, hello.fileCount);
    Dcp.BuiltIsAccepted(tid, 0, 0, b);
    Dcp.BodyOfBuilt(tid, 0, 0, b);
    CStringOfText(hello.name);
    Dcp.BuiltIsAccepted(tid, id, DIRECTORY_FSID, Dcp.HelloResponse(1));
    Dcp.OwnIdsPass(tid, 0, 0, DCP_HELLO, Dcp.HelloResponse(1));
  }

  // ---- Logging in --------------------------------------------------------------------------------------

  /** What the client has learned, and the host and user names that the server has. */
  datatype Login = Login(sid: uint64, cid: uint64, fsid: uint64, server: blob, port: int32, host: blob, user: blob)

  /** fap_accept up to its answer: the host and user names of a hello. */
  function HelloNames(m: Option<Msg>): Option<(blob, blob)>
    requires m.Some? ==> Headed(FAP, m.value)
  {
    if Fap.CheckResponse(m, 0, 0, 0, 0, 0) < 0 || m.value.kind != FAP_HELLO || !Fap.Accepts(m.value) then None else
      var s := Content(m.value.sections);
      Fap.AcceptedEntries(m.value);
      Some((CString(s[0].data), CString(s[1].data)))
  }

  /** fap_open from the answer on: the three ids, the server's name and the data port. */
  function HelloAnswer(m: Option<Msg>, tid: uint64): Option<(seq<uint64>, blob, int32)>
    requires m.Some? ==> Headed(FAP, m.value)
  {
    if Fap.CheckResponse(m, tid, 0, 0, 0, FAP_HELLO) < 0 || !Fap.Accepts(m.value) then None
    else if m.value.kind != FAP_HELLO_RESPONSE then None
    else
      var s := Content(m.value.sections);
      Fap.AcceptedEntries(m.value);
      Some((m.value.ids, CString(s[0].data), s[1].value))
  }

  /** fap_open against fap_accept; None if one of them gives up. */
  function LogIn(tid: uint64, ids: seq<uint64>, host: blob, user: blob, server: blob, port: int32): Option<Login>
    requires |ids| == 3
  {
    var hello := Transmit(FAP, Fap.Message(tid, 0, 0, 0, Fap.Hello(host, user)));
    var names :- HelloNames(hello);
    var answer := Transmit(FAP, Fap.Message(hello.value.tid, ids[0], ids[1], ids[2], Fap.HelloResponse(server, port)));
    var learned :- HelloAnswer(answer, tid);
    if |learned.0| != 3 then None
    else Some(Login(learned.0[0], learned.0[1], learned.0[2], learned.1, learned.2, names.0, names.1))
  }

  lemma HelloArrives(tid: uint64, host: blob, user: blob)
    requires 0 !in host && 0 !in user
    ensures var m := Fap.Message(tid, 0, 0, 0, Fap.Hello(host, user));
            Transmit(FAP, m) == Some(m) && HelloNames(Some(m)) == Some((host, user))
  {
    hide Transmit;
    Fap.BuiltIsAccepted(tid, 0, 0, 0, Fap.Hello(host, user));
    ContentOfOpen(Fap.SectionsOf(Fap.Hello(host, user)));
    CStringOfText(host);
    CStringOfText(user);
  }

  lemma HelloAnswered(tid: uint64, sid: uint64, cid: uint64, fsid: uint64, server: blob, port: int32)
    requires 0 !in server
    ensures var m := Fap.Message(tid, sid, cid, fsid, Fap.HelloResponse(server, port));
            Transmit(FAP, m) == Some(m) && HelloAnswer(Some(m), tid) == Some(([sid, cid, fsid], server, port))
  {
    hide Transmit;
    Fap.BuiltIsAccepted(tid, sid, cid, fsid, Fap.HelloResponse(server, port));
    ContentOfOpen(Fap.SectionsOf(Fap.HelloResponse(server, port)));
    CStringOfText(server);
  }

  /** After logging in the client has the ids that the server puts into its answers, and the server has the user
      that it names in its requests to the directory. */
  lemma LogInLearnsIds(tid: uint64, sid: uint64, cid: uint64, fsid: uint64, host: blob, user: blob, server: blob,
                       port: int32)
    requires 0 !in host && 0 !in user && 0 !in server
    ensures LogIn(tid, [sid, cid, fsid], host, user, server, port) ==
              Some(Login(sid, cid, fsid, server, port, host, user))
  {
    hide Transmit, HelloNames, HelloAnswer;
    HelloArrives(tid, host, user);
    HelloAnswered(tid, sid, cid, fsid, server, port);
  }
}
