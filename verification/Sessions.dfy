/** A client's whole session at a file server (src/fsservd.c) as a function of the bytes that the client sends: what
    each command does to the directory, the line to it and the local files, what is sent back on both connections, and
    how it ends. */
module Sessions {
  import opened Wrappers
  import opened Bytes
  import opened Messages
  import opened Codec
  import opened Sections
  import opened Paths
  import opened DirTree
  import opened DirServer
  import opened Transfer
  import opened Answers
  import opened EndToEnd
  import opened Lines
  import Dcp
  import Fap

  /** How a session ends: the connection cannot be parsed any more, the client quits, a write waits for data that does
      not come, the server waits for an answer of the directory that does not come, it exits because a file cannot be
      opened, or it copies a section that is not there. */
  datatype End = Lost | Left | Waiting | Stuck | Exited | Fault

  /** Who serves whom: the server's slot, the client's id and user, and the files of all servers. */
  datatype Site = Site(infos: seq<ServerInfo>, slot: nat, cid: uint64, user: blob, peers: seq<Store>)

  /** What the server has: its files (without what a write that is still waiting has put there), its line to the
      directory, and what is not yet read of the data connection. */
  datatype Local = Local(files: Store, line: Line, data: seq<bytes>)

  /** What one command leaves behind: the server's state, the response, the bytes for the data connection, and
      whether it is the last. */
  datatype Turn<+R> = Turn(after: Local, response: R, out: blob, end: Option<End>)

  ghost predicate Serves(site: Site, t: Tree) {
    Valid(t) && OwnersKnown(t, |site.infos|) && site.slot < |site.infos| && |site.peers| == |site.infos|
  }

  function SessionFor(site: Site, tid: uint64, dirTid: uint64): Session
    requires site.slot < |site.infos|
  {
    Session(site.infos[site.slot].id, site.cid, DIRECTORY_FSID, tid, dirTid)
  }

  function ClientMessage(x: Session, b: Fap.Body): (m: Msg)
    ensures Headed(FAP, m) && Open(m)
  {
    Fap.Message(x.tid, x.sid, x.cid, x.fsid, b)
  }

  // ---- Copies from other servers ---------------------------------------------------------------------

  /** The contents at the first of the hosts that has the file. */
  function FirstCopy(infos: seq<ServerInfo>, peers: seq<Store>, hosts: seq<blob>, q: seq<bytes>): Option<blob>
    requires |peers| == |infos|
  {
    if hosts == [] then None else
      var t := HostNamed(infos, hosts[0]);
      if t.Some? && q in peers[t.value] then Some(peers[t.value][q])
      else FirstCopy(infos, peers, hosts[1..], q)
  }

  /** The local files after a first copy has been fetched, if there is one. */
  function WithCopy(infos: seq<ServerInfo>, peers: seq<Store>, hosts: seq<blob>, files: Store, q: seq<bytes>): Store
    requires |peers| == |infos|
  {
    match FirstCopy(infos, peers, hosts, q)
    case None => files
    case Some(d) => Written(files, q, d)
  }

  // ---- Commands --------------------------------------------------------------------------------------

  /** A request to the directory, over the server's line. */
  function Ask(t: Tree, site: Site, x: Session, l: Local, b: Dcp.Body): (r: Asked)
    requires Serves(site, t)
    ensures r.heard.Heard? && r.heard.reply.Some? ==> Headed(DCP, r.heard.reply.value)
  {
    AskDirectory(t, site.infos, site.slot, l.line, x, b)
  }

  /** The server waits for the directory. */
  function StuckTurn(l: Local, asked: Asked): Turn<Option<Msg>> {
    Turn(l.(line := asked.line), None, [], Some(Stuck))
  }

  function ListTurn(t: Tree, site: Site, x: Session, l: Local, recurse: int32, path: blob): (Tree, Turn<Option<Msg>>)
    requires Serves(site, t)
  {
    var asked := Ask(t, site, x, l, Dcp.Read(recurse, path));
    (asked.tree, ListHeard(x, l, asked))
  }

  /** list_directory from the answer on. */
  function ListHeard(x: Session, l: Local, asked: Asked): Turn<Option<Msg>>
    requires asked.heard.Heard? && asked.heard.reply.Some? ==> Headed(DCP, asked.heard.reply.value)
  {
    if asked.heard.Waits? then StuckTurn(l, asked)
    else Turn(l.(line := asked.line), ListReply(x, asked.heard.reply), [], None)
  }

  function CreateTurn(t: Tree, site: Site, x: Session, l: Local, path: blob): (Tree, Turn<Option<Msg>>)
    requires Serves(site, t)
  {
    var asked := Ask(t, site, x, l, CreateRequest(path, site.user));
    (asked.tree, CreateHeard(x, l, asked, path))
  }

  /** create_file from the answer on. */
  function CreateHeard(x: Session, l: Local, asked: Asked, path: blob): Turn<Option<Msg>>
    requires asked.heard.Heard? && asked.heard.reply.Some? ==> Headed(DCP, asked.heard.reply.value)
  {
    if asked.heard.Waits? then StuckTurn(l, asked)
    else
      var (response, local) := CreateReply(x, asked.heard.reply);
      Turn(Local(if local then Written(l.files, Tokens(path), []) else l.files, asked.line, l.data), response, [],
           if local && response.None? then Some(Fault) else None)
  }

  function WriteTurn(t: Tree, site: Site, x: Session, l: Local, path: blob, length: int32): (Tree, Turn<Option<Msg>>)
    requires Serves(site, t)
  {
    var asked := Ask(t, site, x, l, WriteRequest(path, site.user));
    (asked.tree, WriteHeard(x, l, asked, path, length))
  }

  /** write_file from the answer on. */
  function WriteHeard(x: Session, l: Local, asked: Asked, path: blob, length: int32): Turn<Option<Msg>>
    requires asked.heard.Heard? && asked.heard.reply.Some? ==> Headed(DCP, asked.heard.reply.value)
  {
    if asked.heard.Waits? then StuckTurn(l, asked)
    else
      var (answer, accepted) := WriteReply(x, asked.heard.reply);
      var l' := l.(line := asked.line);
      if accepted then ReceivedTurn(x, answer, l', path, length) else Turn(l', AnswerMessage(x, answer), [], None)
  }

  /** An accepted write from the receiving on. */
  function ReceivedTurn(x: Session, answer: Option<Fap.Body>, l: Local, path: blob, length: int32): Turn<Option<Msg>> {
    match ReceivedFrom(l.data, length)
    case None => Turn(l, None, [], Some(Waiting))
    case Some((d, more)) =>
      Turn(Local(Written(l.files, Tokens(path), d), l.line, more), AnswerMessage(x, answer), [], None)
  }

  function AnswerMessage(x: Session, answer: Option<Fap.Body>): Option<Msg> {
    if answer.None? then None else Some(ClientMessage(x, answer.value))
  }

  function ReadTurn(t: Tree, site: Site, x: Session, l: Local, path: blob): (Tree, Turn<Option<Msg>>)
    requires Serves(site, t)
  {
    if Tokens(path) in l.files then (t, FileTurn(x, l, path))
    else
      var asked := Ask(t, site, x, l, Dcp.GetReplicas(path));
      (asked.tree, ReadHeard(site, x, l, asked, path))
  }

  /** ask_file from the answer on, and what serve_file does then. */
  function ReadHeard(site: Site, x: Session, l: Local, asked: Asked, path: blob): Turn<Option<Msg>>
    requires asked.heard.Heard? && asked.heard.reply.Some? ==> Headed(DCP, asked.heard.reply.value)
    requires |site.peers| == |site.infos|
  {
    if asked.heard.Waits? then StuckTurn(l, asked)
    else
      var files := WithCopy(site.infos, site.peers, ReplicaHosts(x, asked.heard.reply), l.files, Tokens(path));
      FileTurn(x, Local(files, asked.line, l.data), path)
  }

  /** serve_file once there is nobody to ask any more. */
  function FileTurn(x: Session, l: Local, path: blob): (r: Turn<Option<Msg>>)
    ensures r.after == l
  {
    match FileResponse(l.files, path)
    case None => Turn(l, None, [], Some(Exited))
    case Some((b, d)) => Turn(l, Some(ClientMessage(x, b)), d, None)
  }

  /** The command that the dispatcher found; commands without a handler are passed over. */
  function CommandTurn(t: Tree, site: Site, x: Session, l: Local, command: Option<Fap.Body>): (Tree, Turn<Option<Msg>>)
    requires Serves(site, t)
  {
    match command
    case Some(CmdList(recurse, path)) => ListTurn(t, site, x, l, recurse, path)
    case Some(CmdCreate(path, _)) => CreateTurn(t, site, x, l, CString(path))
    case Some(CmdWrite(path, length)) => WriteTurn(t, site, x, l, CString(path), length)
    case Some(CmdRead(path, _, _)) => ReadTurn(t, site, x, l, CString(path))
    case Some(Quit) => (t, Turn(l, Some(ClientMessage(x, Fap.Ok)), [], Some(Left)))
    case _ => (t, Turn(l, None, [], None))
  }

  /** One message of the client; one that is not of its kind is answered with an error. */
  function MessageTurn(t: Tree, site: Site, x: Session, l: Local, m: Msg): (Tree, Turn<Option<Msg>>)
    requires Serves(site, t)
  {
    if Fap.Accepts(m) then CommandTurn(t, site, x, l, Fap.Dispatch(m))
    else (t, Turn(l, Some(ClientMessage(x, Fap.Failure(ERR_MSG, []))), [], None))
  }

  // ---- What a command keeps ----------------------------------------------------------------------------

  /** A request to the directory keeps the tree and every lookup, and what is heard was read by the parser. */
  lemma AskKeeps(t: Tree, site: Site, x: Session, l: Local, b: Dcp.Body)
    requires Serves(site, t)
    ensures var r := Ask(t, site, x, l, b);
            && Serves(site, r.tree) && StillResolves(t, r.tree)
            && (r.heard.Heard? && r.heard.reply.Some? ==>
                  Open(r.heard.reply.value) && AllReadable(r.heard.reply.value.sections))
  {
    hide Exchange;
    ExchangeKeeps(t, site.infos, site.slot, l.line, Dcp.Asking(x.dirTid, x.sid, x.fsid, b));
  }

  ghost predicate Kept(t: Tree, site: Site, l: Local, r: (Tree, Turn<Option<Msg>>))
    requires Valid(t)
  {
    Serves(site, r.0) && StillResolves(t, r.0) && l.files.Keys <= r.1.after.files.Keys
  }

  /** Whatever the client sends, every path that resolved resolves to the same node, and no local file goes away. */
  lemma MessageKeeps(t: Tree, site: Site, x: Session, l: Local, m: Msg)
    requires Serves(site, t)
    ensures Kept(t, site, l, MessageTurn(t, site, x, l, m))
  {
    hide Ask, ListReply, CreateReply, WriteReply, ReplicaHosts, StillResolves, Fap.Dispatch, Fap.Accepts;
    if Fap.Accepts(m) {
      match Fap.Dispatch(m)
      case Some(CmdList(recurse, path)) => AskKeeps(t, site, x, l, Dcp.Read(recurse, path));
      case Some(CmdCreate(path, _)) => AskKeeps(t, site, x, l, CreateRequest(CString(path), site.user));
      case Some(CmdWrite(path, _)) => AskKeeps(t, site, x, l, WriteRequest(CString(path), site.user));
      case Some(CmdRead(path, _, _)) =>
        AskKeeps(t, site, x, l, Dcp.GetReplicas(CString(path)));
        ResolvesItself(t);
      case _ => ResolvesItself(t);
    } else {
      ResolvesItself(t);
    }
  }

  lemma ResolvesItself(t: Tree)
    requires Valid(t)
    ensures StillResolves(t, t)
  {
  }

  // ---- What is sent back -------------------------------------------------------------------------------

  /** A response or error with the ids of the session that the client's parser can read. */
  predicate Own(x: Session, m: Msg) {
    && m.tid == x.tid && m.ids == [x.sid, x.cid, x.fsid] && m.kind in {FAP_RESPONSE, FAP_ERROR}
    && Headed(FAP, m) && Open(m) && AllReadable(m.sections)
  }

  predicate IfOwn(x: Session, response: Option<Msg>) {
    response.Some? ==> Own(x, response.value)
  }

  lemma BuiltIsOwn(x: Session, b: Fap.Body)
    requires Fap.KindOf(b) in {FAP_RESPONSE, FAP_ERROR} && Fap.ReadableBody(b)
    ensures Own(x, ClientMessage(x, b))
  {
    Fap.BodyReadable(b);
  }

  lemma ListReplyIsOwn(x: Session, reply: Option<Msg>)
    requires reply.Some? ==> Headed(DCP, reply.value) && Open(reply.value) && AllReadable(reply.value.sections)
    ensures IfOwn(x, ListReply(x, reply))
  {
    if ListReply(x, reply).Some? {
      ContentOfOpen(reply.value.sections);
      var s := reply.value.sections;
      var r := ListReply(x, reply).value.sections;
      assert forall i :: 1 <= i < |r| ==> r[i] == s[i - 1];
    }
  }

  lemma CreateReplyIsOwn(x: Session, reply: Option<Msg>)
    requires reply.Some? ==> Headed(DCP, reply.value) && Open(reply.value) && AllReadable(reply.value.sections)
    ensures IfOwn(x, CreateReply(x, reply).0)
  {
    if CreateReply(x, reply).0.Some? {
      ContentOfOpen(reply.value.sections);
      BuiltIsOwn(x, Fap.Failure(ERR_EXISTS, Ascii("file already exists")));
    }
  }

  lemma WriteReplyIsOwn(x: Session, reply: Option<Msg>)
    requires reply.Some? ==> Headed(DCP, reply.value)
    ensures IfOwn(x, AnswerMessage(x, WriteReply(x, reply).0))
  {
    if WriteReply(x, reply).0.Some? {
      BuiltIsOwn(x, WriteReply(x, reply).0.value);
    }
  }

  lemma FileTurnIsOwn(x: Session, l: Local, path: blob)
    ensures IfOwn(x, FileTurn(x, l, path).response)
  {
    if FileResponse(l.files, path).Some? {
      BuiltIsOwn(x, FileResponse(l.files, path).value.0);
    }
  }

  /** A message gets at most one answer, with its own transaction. */
  lemma MessageAnswer(t: Tree, site: Site, x: Session, l: Local, m: Msg)
    requires Serves(site, t)
    ensures IfOwn(x, MessageTurn(t, site, x, l, m).1.response)
  {
    hide Ask, ListReply, CreateReply, WriteReply, ReplicaHosts, ClientMessage, Own, FileTurn, AnswerMessage, WithCopy,
         Fap.Dispatch, Fap.Accepts;
    if !Fap.Accepts(m) {
      BuiltIsOwn(x, Fap.Failure(ERR_MSG, []));
    } else {
      match Fap.Dispatch(m)
      case Some(CmdList(recurse, path)) =>
        AskKeeps(t, site, x, l, Dcp.Read(recurse, path));
        var heard := Ask(t, site, x, l, Dcp.Read(recurse, path)).heard;
        if heard.Heard? {
          ListReplyIsOwn(x, heard.reply);
        }
      case Some(CmdCreate(path, _)) =>
        AskKeeps(t, site, x, l, CreateRequest(CString(path), site.user));
        var heard := Ask(t, site, x, l, CreateRequest(CString(path), site.user)).heard;
        if heard.Heard? {
          CreateReplyIsOwn(x, heard.reply);
        }
      case Some(CmdWrite(path, _)) =>
        var heard := Ask(t, site, x, l, WriteRequest(CString(path), site.user)).heard;
        if heard.Heard? {
          WriteReplyIsOwn(x, heard.reply);
        }
      case Some(CmdRead(path, _, _)) =>
        var r := MessageTurn(t, site, x, l, m).1;
        FileTurnIsOwn(x, r.after, CString(path));
      case Some(Quit) => BuiltIsOwn(x, Fap.Ok);
      case _ =>
    }
  }

  // ---- The whole session -------------------------------------------------------------------------------

  /** sent are the messages that went out, out is what went out on the data connection, and last is the transaction of
      the last message that was of its kind. */
  datatype Result = Result(tree: Tree, after: Local, last: uint64, sent: seq<Msg>, out: bytes, end: End)

  function AndThen(response: Option<Msg>, out: bytes, r: Result): Result {
    r.(sent := (if response.None? then [] else [response.value]) + r.sent, out := out + r.out)
  }

  function Remembered(last: uint64, m: Msg): uint64 {
    if Fap.Accepts(m) then m.tid else last
  }

  /** The session from the bytes that the client sends, with the transaction ids that the server draws. Nobody else acts
      meanwhile. */
  function Conversation(t: Tree, site: Site, l: Local, tids: nat -> uint64, n: nat, last: uint64, bs: bytes): Result
    requires Serves(site, t)
    decreases |bs|
  {
    match Decode(FAP, bs)
    case Broken(_) => Result(t, l, last, [], [], Lost)
    case Short => Result(t, l, last, [], [], Lost)
    case Got((m, more)) =>
      var x := SessionFor(site, m.tid, tids(n));
      var (u, turn) := MessageTurn(t, site, x, l, m);
      MessageKeeps(t, site, x, l, m);
      AndThen(turn.response, turn.out,
              if turn.end.Some? then Result(u, turn.after, Remembered(last, m), [], [], turn.end.value)
              else Conversation(u, site, turn.after, tids, n + 1, Remembered(last, m), more))
  }

  /** For every stream of bytes, what resolved in the directory resolves to the same node afterwards, and every local
      file is still there. */
  lemma {:induction false} ConversationKeeps(t: Tree, site: Site, l: Local, tids: nat -> uint64, n: nat, last: uint64,
                                             bs: bytes)
    requires Serves(site, t)
    ensures var r := Conversation(t, site, l, tids, n, last, bs);
            Serves(site, r.tree) && StillResolves(t, r.tree) && l.files.Keys <= r.after.files.Keys
    decreases |bs|
  {
    hide MessageTurn;
    ResolvesItself(t);
    if Decode(FAP, bs).Got? {
      var (m, more) := Decode(FAP, bs).value;
      var x := SessionFor(site, m.tid, tids(n));
      MessageKeeps(t, site, x, l, m);
      var (u, turn) := MessageTurn(t, site, x, l, m);
      if turn.end.None? {
        ConversationKeeps(u, site, turn.after, tids, n + 1, Remembered(last, m), more);
      }
    }
  }

  /** The answers follow the order of what was asked, with the same transactions, at most one each. */
  predicate InOrder(sent: seq<Msg>, asked: seq<Msg>) {
    || sent == []
    || (&& asked != []
        && (|| (sent[0].tid == asked[0].tid && InOrder(sent[1..], asked[1..]))
            || InOrder(sent, asked[1..])))
  }

  predicate AllOwn(site: Site, sent: seq<Msg>)
    requires site.slot < |site.infos|
  {
    forall k :: 0 <= k < |sent| ==> Own(SessionFor(site, sent[k].tid, 0), sent[k])
  }

  lemma {:induction false} AnswersInOrder(t: Tree, site: Site, l: Local, tids: nat -> uint64, n: nat, last: uint64,
                                          bs: bytes)
    requires Serves(site, t)
    ensures var r := Conversation(t, site, l, tids, n, last, bs);
            InOrder(r.sent, Received(FAP, bs)) && AllOwn(site, r.sent)
    decreases |bs|
  {
    hide MessageTurn;
    if Decode(FAP, bs).Got? {
      var (m, more) := Decode(FAP, bs).value;
      var x := SessionFor(site, m.tid, tids(n));
      MessageKeeps(t, site, x, l, m);
      MessageAnswer(t, site, x, l, m);
      var (u, turn) := MessageTurn(t, site, x, l, m);
      var sent := Conversation(t, site, l, tids, n, last, bs).sent;
      var later := if turn.end.Some? then []
                   else Conversation(u, site, turn.after, tids, n + 1, Remembered(last, m), more).sent;
      if turn.end.None? {
        AnswersInOrder(u, site, turn.after, tids, n + 1, Remembered(last, m), more);
      }
      assert InOrder(later, Received(FAP, more)) && AllOwn(site, later);
      AddAnswer(site, x, turn.response, later, sent, m, Received(FAP, more));
    }
  }

  lemma AddAnswer(site: Site, x: Session, response: Option<Msg>, later: seq<Msg>, sent: seq<Msg>, m: Msg,
                  asked: seq<Msg>)
    requires site.slot < |site.infos| && x == SessionFor(site, m.tid, x.dirTid)
    requires IfOwn(x, response)
    requires InOrder(later, asked) && AllOwn(site, later)
    requires sent == (if response.None? then [] else [response.value]) + later
    ensures InOrder(sent, [m] + asked) && AllOwn(site, sent)
  {
    assert ([m] + asked)[1..] == asked;
    if response.Some? {
      assert sent[1..] == later;
      forall k | 0 <= k < |sent| ensures Own(SessionFor(site, sent[k].tid, 0), sent[k]) {
        if k > 0 {
          assert sent[k] == later[k - 1];
        }
      }
    } else {
      assert sent == later;
    }
  }

  lemma OwnPasses(site: Site, m: Msg)
    requires site.slot < |site.infos| && Own(SessionFor(site, m.tid, 0), m)
    ensures Headed(FAP, m) && Open(m) && AllReadable(m.sections)
    ensures Fap.CheckResponse(Some(m), m.tid, site.infos[site.slot].id, site.cid, DIRECTORY_FSID,
                              FAP_COMMAND) in {0, -6}
  {
  }

  /** For every stream of bytes, the client's parser gets back exactly the answers, each a response or error with the
      session's ids that the client's check takes for its command, in the order of the commands. */
  lemma ConversationAnswers(t: Tree, site: Site, l: Local, tids: nat -> uint64, n: nat, last: uint64, bs: bytes)
    requires Serves(site, t)
    ensures var r := Conversation(t, site, l, tids, n, last, bs);
            && Received(FAP, Stream(r.sent)) == r.sent
            && InOrder(r.sent, Received(FAP, bs))
            && forall k :: 0 <= k < |r.sent| ==>
                 Headed(FAP, r.sent[k]) &&
                 Fap.CheckResponse(Some(r.sent[k]), r.sent[k].tid, site.infos[site.slot].id, site.cid, DIRECTORY_FSID,
                                   FAP_COMMAND) in {0, -6}
  {
    hide Conversation, InOrder, Own, Fap.CheckResponse, AllReadable, Received, Stream;
    AnswersInOrder(t, site, l, tids, n, last, bs);
    var sent := Conversation(t, site, l, tids, n, last, bs).sent;
    forall k | 0 <= k < |sent|
      ensures Headed(FAP, sent[k]) && Open(sent[k]) && AllReadable(sent[k].sections)
      ensures Fap.CheckResponse(Some(sent[k]), sent[k].tid, site.infos[site.slot].id, site.cid, DIRECTORY_FSID,
                                FAP_COMMAND) in {0, -6}
    {
      OwnPasses(site, sent[k]);
    }
    StreamDelivered(FAP, sent);
  }

  function Command(site: Site, tid: uint64, b: Fap.Body): (m: Msg)
    requires site.slot < |site.infos|
    ensures Headed(FAP, m) && Open(m)
  {
    Fap.Message(tid, site.infos[site.slot].id, site.cid, DIRECTORY_FSID, b)
  }

  /** A command on the connection is what its turn is about. */
  lemma CommandTurned(t: Tree, site: Site, l: Local, tids: nat -> uint64, n: nat, last: uint64, tid: uint64,
                      b: Fap.Body, more: bytes)
    requires Serves(site, t) && Fap.KindOf(b) in {FAP_COMMAND, FAP_QUIT}
    ensures var x := SessionFor(site, tid, tids(n));
            var (u, turn) := CommandTurn(t, site, x, l, Some(b));
            && Kept(t, site, l, (u, turn))
            && Conversation(t, site, l, tids, n, last, Encode(Seal(Command(site, tid, b))) + more) ==
                 AndThen(turn.response, turn.out,
                         if turn.end.Some? then Result(u, turn.after, tid, [], [], turn.end.value)
                         else Conversation(u, site, turn.after, tids, n + 1, tid, more))
  {
    hide CommandTurn, Fap.Dispatch, Fap.Accepts;
    var m := Command(site, tid, b);
    RoundTrip(FAP, m, more);
    Fap.BodyReadable(b);
    Fap.DispatchOfBuilt(tid, site.infos[site.slot].id, site.cid, DIRECTORY_FSID, b);
    MessageKeeps(t, site, SessionFor(site, tid, tids(n)), l, m);
  }

  // ---- Sessions that get stuck ---------------------------------------------------------------------------

  /** The request that a command makes at once, if it makes one. */
  function AsksFor(site: Site, command: Fap.Body): Option<Dcp.Body> {
    match command
    case CmdList(recurse, path) => Some(Dcp.Read(recurse, path))
    case CmdCreate(path, _) => Some(CreateRequest(CString(path), site.user))
    case CmdWrite(path, _) => Some(WriteRequest(CString(path), site.user))
    case _ => None
  }

  /** A command whose request ends the directory's thread, or comes after one that has, is the last that the server
      ever serves: nothing is sent, and whatever the client sends behind it is not read. */
  lemma StuckForEver(t: Tree, site: Site, l: Local, tids: nat -> uint64, n: nat, last: uint64, tid: uint64,
                     command: Fap.Body, more: bytes)
    requires Serves(site, t) && AsksFor(site, command).Some?
    requires l.line == Line(false, []) || (l.line == IN_STEP && !Dcp.ReadableBody(AsksFor(site, command).value))
    ensures Conversation(t, site, l, tids, n, last, Encode(Seal(Command(site, tid, command))) + more) ==
              Result(t, l.(line := Line(false, [])), tid, [], [], Stuck)
  {
    hide Conversation, AskDirectory, ListReply, CreateReply, WriteReply, Fap.Message;
    var x := SessionFor(site, tid, tids(n));
    var b := AsksFor(site, command).value;
    CommandTurned(t, site, l, tids, n, last, tid, command, more);
    if l.line == IN_STEP {
      DirectorySilent(t, site.infos, site.slot, x, b);
    } else {
      DirectoryEnded(t, site.infos, site.slot, x, b);
    }
    NothingAdded(Result(t, l.(line := Line(false, [])), tid, [], [], Stuck));
  }

  lemma NothingAdded(r: Result)
    ensures AndThen(None, [], r) == r
  {
    assert [] + r.sent == r.sent && [] + r.out == r.out;
  }

  /** A concrete case: a client without a user name that creates /a and then lists the root gets no answer to either. */
  lemma NamelessSession(t: Tree, site: Site, files: Store, data: seq<bytes>, tids: nat -> uint64, a: uint64, b: uint64)
    requires Serves(site, t) && site.user == []
    ensures var create, list := Fap.CmdCreate([SLASH, 97], 1), Fap.CmdList(1, [SLASH]);
            var bs := Encode(Seal(Command(site, a, create))) + Encode(Seal(Command(site, b, list)));
            Conversation(t, site, Local(files, IN_STEP, data), tids, 0, 0, bs) ==
              Result(t, Local(files, Line(false, []), data), a, [], [], Stuck)
  {
    hide Conversation, Encode;
    var create, list := Fap.CmdCreate([SLASH, 97], 1), Fap.CmdList(1, [SLASH]);
    StuckForEver(t, site, Local(files, IN_STEP, data), tids, 0, 0, a, create, Encode(Seal(Command(site, b, list))));
  }

  lemma MessageIsCommand(site: Site, tid: uint64, dirTid: uint64, b: Fap.Body)
    requires site.slot < |site.infos|
    ensures ClientMessage(SessionFor(site, tid, dirTid), b) == Command(site, tid, b)
  {
  }

  lemma RegisteredHere(site: Site, tid: uint64, dirTid: uint64)
    requires site.slot < |site.infos|
    ensures Registered(SessionFor(site, tid, dirTid), site.infos, site.slot)
  {
  }

  lemma QuitTurn(t: Tree, site: Site, x: Session, l: Local)
    requires Serves(site, t)
    ensures CommandTurn(t, site, x, l, Some(Fap.Quit)) ==
              (t, Turn(l, Some(ClientMessage(x, Fap.Ok)), [], Some(Left)))
  {
  }
}
