/** The file server's request handlers and command loop (src/fsservd.c) and its part of the copy step (src/fctp.c),
    step by step: messages are built section by section, printed, sent to the directory, parsed, validated and
    checked, and the local files, the line to the directory and the data connection change in place. Each handler is
    proved against its turn in module Sessions. */
module FileServers {
  import opened Wrappers
  import opened Bytes
  import opened Messages
  import opened Codec
  import opened Sections
  import opened Paths
  import opened DirTree
  import opened DirServer
  import opened Wire
  import opened Directory
  import opened Transfer
  import opened Answers
  import opened EndToEnd
  import opened Lines
  import opened Sessions
  import Dcp
  import Fap

  function ViewOf(m: Fsmsg?): (r: Option<Msg>)
    requires m != null ==> m.Valid()
    reads m, if m == null then {} else {m.sections}
  {
    if m == null then None else Some(m.View())
  }

  /** Sending one request on a line whose thread runs is serving the stream of its bytes. */
  lemma PostIsService(t: Tree, infos: seq<ServerInfo>, slot: nat, unread: bytes, m: Msg)
    requires Valid(t) && OwnersKnown(t, |infos|) && slot < |infos| && Headed(DCP, m) && Open(m)
    ensures var (u, out, waits) := ServeStream(t, infos, slot, Encode(Seal(m)));
            Post(t, infos, slot, Line(true, unread), m) == (u, Line(waits, unread + out))
  {
    hide ServeMessage;
    RoundTrip(DCP, m, []);
    assert Encode(Seal(m)) + [] == Encode(Seal(m));
    assert Decode(DCP, []).Short? by { assert Read64([]).Short?; }
    assert unread + [] == unread;
    if AllReadable(m.sections) && ServeMessage(t, infos, slot, m).Some? {
      ServeMessageKeeps(t, infos, slot, m);
      var (u, answer) := ServeMessage(t, infos, slot, m).value;
      assert ServeStream(u, infos, slot, []) == (u, [], true);
      assert answer + [] == answer;
    }
  }

  /** dcp_create_msg and fap_create_msg. */
  method CreateMsg(p: Protocol, tid: uint64, ids: seq<uint64>, kind: uint16) returns (msg: Fsmsg)
    requires |ids| == IdCount(p)
    ensures fresh(msg) && msg.Valid() && fresh(msg.sections) && msg.View() == Msg(tid, ids, kind, [])
  {
    msg := new Fsmsg.Create(p);
    msg.tid, msg.ids, msg.kind := tid, ids, kind;
  }

  // ---- The four requests -------------------------------------------------------------------------------

  /** The head of list_directory. */
  method ListRequest(x: Session, recurse: int32, path: blob) returns (msg: Fsmsg)
    ensures fresh(msg) && msg.Valid() && fresh(msg.sections)
    ensures msg.View() == Seal(Dcp.Asking(x.dirTid, x.sid, x.fsid, Dcp.Read(recurse, path)))
  {
    msg := CreateMsg(DCP, x.dirTid, [x.fsid, x.sid], DCP_READ);
    msg.AddSection(Integer(recurse));
    msg.AddSection(Text(path));
    msg.AddSection(NoNext);
  }

  /** The head of create_file. */
  method CreationRequest(x: Session, path: blob, user: blob) returns (msg: Fsmsg)
    ensures fresh(msg) && msg.Valid() && fresh(msg.sections)
    ensures msg.View() == Seal(Dcp.Asking(x.dirTid, x.sid, x.fsid, CreateRequest(path, user)))
  {
    msg := CreateMsg(DCP, x.dirTid, [x.fsid, x.sid], DCP_CREATE);
    msg.AddSection(File(FileInfo(0, path, user, 0, 0, 0)));
    msg.AddSection(NoNext);
  }

  /** The head of write_file. */
  method UpdateRequest(x: Session, path: blob, user: blob) returns (msg: Fsmsg)
    ensures fresh(msg) && msg.Valid() && fresh(msg.sections)
    ensures msg.View() == Seal(Dcp.Asking(x.dirTid, x.sid, x.fsid, WriteRequest(path, user)))
  {
    msg := CreateMsg(DCP, x.dirTid, [x.fsid, x.sid], DCP_UPDATE);
    msg.AddSection(File(FileInfo(0, path, user, 0, 0, 0)));
    msg.AddSection(NoNext);
  }

  /** The head of ask_file, which alone has the ids in the documented order. */
  method ReplicaRequest(x: Session, path: blob) returns (msg: Fsmsg)
    ensures fresh(msg) && msg.Valid() && fresh(msg.sections)
    ensures msg.View() == Seal(Dcp.Asking(x.dirTid, x.sid, x.fsid, Dcp.GetReplicas(path)))
  {
    msg := CreateMsg(DCP, x.dirTid, [x.sid, x.fsid], DCP_GET_REPLICAS);
    msg.AddSection(Text(path));
    msg.AddSection(NoNext);
  }

  // ---- What goes to the client -------------------------------------------------------------------------

  function Sealed(m: Option<Msg>): Option<Msg> {
    if m.None? then None else Some(Seal(m.value))
  }

  function ToClient(x: Session, b: Option<Fap.Body>): Option<Msg> {
    if b.None? then None else Some(Seal(ClientMessage(x, b.value)))
  }

  /** The bytes of a response, if there is one. */
  function Printed(response: Option<Msg>): bytes {
    if response.None? then [] else Encode(Seal(response.value))
  }

  /** What a handler sends on the two connections, and whether the session ends. */
  datatype Step = Step(control: bytes, out: blob, end: Option<End>)

  /** The server has done what the turn says. */
  ghost predicate Does(after: Local, r: Step, turn: Turn<Option<Msg>>) {
    after == turn.after && r == Step(Printed(turn.response), turn.out, turn.end)
  }

  method Print(msg: Fsmsg, p: Protocol) returns (bs: bytes)
    requires msg.Valid() && Headed(p, msg.View())
    ensures bs == Encode(msg.View())
  {
    var buffer, len := FsmsgToBuffer(msg, p);
    bs := buffer.store[..len];
  }

  /** Prints a response that may be none. */
  method PrintResponse(climsg: Fsmsg?, ghost response: Option<Msg>) returns (bs: bytes)
    requires climsg != null ==> climsg.Valid()
    requires ViewOf(climsg) == Sealed(response) && (response.Some? ==> Headed(FAP, response.value))
    ensures bs == Printed(response)
  {
    bs := [];
    if climsg != null {
      bs := Print(climsg, FAP);
    }
  }

  method PrintAnswer(x: Session, climsg: Fsmsg?, ghost answer: Option<Fap.Body>) returns (bs: bytes)
    requires climsg != null ==> climsg.Valid()
    requires ViewOf(climsg) == ToClient(x, answer)
    ensures bs == Printed(AnswerMessage(x, answer))
  {
    bs := PrintResponse(climsg, AnswerMessage(x, answer));
  }

  /** fap_send_ok, and the OK of write_file. */
  method FapOk(x: Session) returns (msg: Fsmsg)
    ensures fresh(msg) && fresh(msg.sections) && msg.Valid()
    ensures msg.View() == Seal(ClientMessage(x, Fap.Ok))
  {
    msg := CreateMsg(FAP, x.tid, [x.sid, x.cid, x.fsid], FAP_RESPONSE);
    msg.AddSection(Integer(RESP_OK));
    msg.AddSection(NoNext);
  }

  /** fap_send_error. */
  method FapError(x: Session, code: int32, text: blob) returns (msg: Fsmsg)
    ensures fresh(msg) && fresh(msg.sections) && msg.Valid()
    ensures msg.View() == Seal(ClientMessage(x, Fap.Failure(code, text)))
  {
    msg := CreateMsg(FAP, x.tid, [x.sid, x.cid, x.fsid], FAP_ERROR);
    msg.AddSection(Integer(code));
    msg.AddSection(Text(text));
    msg.AddSection(NoNext);
  }

  method FapDataOut(x: Session, length: int32) returns (msg: Fsmsg)
    ensures fresh(msg) && fresh(msg.sections) && msg.Valid()
    ensures msg.View() == Seal(ClientMessage(x, Fap.DataOut(length)))
  {
    msg := CreateMsg(FAP, x.tid, [x.sid, x.cid, x.fsid], FAP_RESPONSE);
    msg.AddSection(Integer(RESP_DATAOUT));
    msg.AddSection(Integer(length));
    msg.AddSection(NoNext);
  }

  // ---- From a reply to a response ------------------------------------------------------------------------

  method Receive(p: Protocol, bs: bytes) returns (reply: Fsmsg?)
    ensures reply != null ==>
              fresh(reply) && fresh(reply.sections) && reply.Valid() && Headed(p, reply.View()) && Open(reply.View())
    ensures ViewOf(reply) == Parsed(p, bs)
  {
    var sock := new Socket(bs);
    reply := FsmsgFromSocket(sock, p);
    if reply != null {
      DecodeIsEncodeInverse(p, bs);
    }
  }

  /** The loop that copies the announced entries of one message behind the sections of another. */
  method CopyEntries(dirmsg: Fsmsg, climsg: Fsmsg)
    requires dirmsg.Valid() && climsg.Valid() && dirmsg != climsg && dirmsg.sections != climsg.sections
    requires dirmsg.Listed() != [] && dirmsg.Listed()[0].Integer?
    requires |dirmsg.Listed()| == 1 + if dirmsg.Listed()[0].value < 0 then 0 else dirmsg.Listed()[0].value
    modifies climsg`sections
    ensures climsg.Valid() && (fresh(climsg.sections) || climsg.sections == old(climsg.sections))
    ensures climsg.Listed() == old(climsg.Listed()) + dirmsg.Listed()[1..]
  {
    ghost var s, c := dirmsg.Listed(), climsg.Listed();
    var count := dirmsg.sections[0].value.value;
    var i := 0;
    assert c + s[1..1] == c;
    while i < count
      invariant 0 <= i && 1 + i <= |s|
      invariant dirmsg.Valid() && dirmsg.Listed() == s
      invariant climsg.Valid() && (fresh(climsg.sections) || climsg.sections == old(climsg.sections))
      invariant climsg.Listed() == c + s[1..1 + i]
    {
      assert dirmsg.sections[i + 1].value == s[i + 1];
      climsg.AddSection(dirmsg.sections[i + 1].value);
      assert s[1..1 + (i + 1)] == s[1..1 + i] + [s[i + 1]];
      Associate(c, s[1..1 + i], [s[i + 1]]);
      i := i + 1;
    }
    assert s[1..1 + i] == s[1..];
  }

  /** What list_directory does with the reply: the checks, then the entries copied one by one. */
  method ListResponse(x: Session, dirmsg: Fsmsg?) returns (climsg: Fsmsg?)
    requires dirmsg != null ==> dirmsg.Valid() && Headed(DCP, dirmsg.View()) && Open(dirmsg.View())
    ensures climsg != null ==> fresh(climsg) && fresh(climsg.sections) && climsg.Valid()
    ensures ViewOf(climsg) == Sealed(ListReply(x, ViewOf(dirmsg)))
  {
    if Dcp.CheckResponse(ViewOf(dirmsg), x.dirTid, x.sid, x.fsid, DCP_READ) < 0 {
      return null;
    }
    var ret := Dcp.ValidateSections(dirmsg.View());
    if ret < 0 {
      return null;
    }
    ListReplyCopies(x, dirmsg.View());
    climsg := CopiedResponse(x, dirmsg);
  }

  /** The response with the count and entries of a reply that passed the checks. */
  method CopiedResponse(x: Session, dirmsg: Fsmsg) returns (climsg: Fsmsg)
    requires dirmsg.Valid() && dirmsg.Listed() != [] && dirmsg.Listed()[0].Integer?
    requires |dirmsg.Listed()| == 1 + if dirmsg.Listed()[0].value < 0 then 0 else dirmsg.Listed()[0].value
    ensures fresh(climsg) && fresh(climsg.sections) && climsg.Valid()
    ensures climsg.View() == Seal(Msg(x.tid, [x.sid, x.cid, x.fsid], FAP_RESPONSE,
                                      [Integer(RESP_FILEINFO), dirmsg.Listed()[0]] + dirmsg.Listed()[1..]))
  {
    ghost var s := dirmsg.Listed();
    climsg := CreateMsg(FAP, x.tid, [x.sid, x.cid, x.fsid], FAP_RESPONSE);
    climsg.AddSection(Integer(RESP_FILEINFO));
    climsg.AddSection(dirmsg.sections[0].value);
    CopyEntries(dirmsg, climsg);
    assert climsg.Listed() == [Integer(RESP_FILEINFO), s[0]] + s[1..];
    climsg.AddSection(NoNext);
  }

  /** The reply to a listing that passes the checks is a count and that many entries, which are all copied. */
  lemma ListReplyCopies(x: Session, m: Msg)
    requires Headed(DCP, m) && Open(m)
    requires Dcp.CheckResponse(Some(m), x.dirTid, x.sid, x.fsid, DCP_READ) >= 0 && Dcp.Accepts(m)
    ensures m.sections != [] && m.sections[0].Integer?
    ensures |m.sections| == 1 + if m.sections[0].value < 0 then 0 else m.sections[0].value
    ensures ListReply(x, Some(m)) ==
            Some(Msg(x.tid, [x.sid, x.cid, x.fsid], FAP_RESPONSE,
                     [Integer(RESP_FILEINFO), m.sections[0]] + m.sections[1..]))
  {
    ContentOfOpen(m.sections);
    Dcp.AcceptedEntries(m);
    assert m.kind == DCP_FILEINFO;
    assert m.sections[1..|m.sections|] == m.sections[1..];
  }

  lemma CreateReplyHeaded(x: Session, reply: Option<Msg>)
    requires reply.Some? ==> Headed(DCP, reply.value)
    ensures CreateReply(x, reply).0.Some? ==> Headed(FAP, CreateReply(x, reply).0.value)
  {
  }

  /** What create_file makes of the reply. */
  method CreateResponse(x: Session, dirmsg: Fsmsg?) returns (climsg: Fsmsg?, local: bool)
    requires dirmsg != null ==> dirmsg.Valid() && Headed(DCP, dirmsg.View()) && Open(dirmsg.View())
    ensures climsg != null ==> fresh(climsg) && fresh(climsg.sections) && climsg.Valid()
    ensures ViewOf(climsg) == Sealed(CreateReply(x, ViewOf(dirmsg)).0)
    ensures local == CreateReply(x, ViewOf(dirmsg)).1
  {
    var ret := Dcp.CheckResponse(ViewOf(dirmsg), x.dirTid, x.sid, x.fsid, DCP_CREATE);
    if dirmsg != null && ret == -5 && IntegerAt(dirmsg.Listed(), 0) == ERR_EXISTS {
      climsg := FapError(x, ERR_EXISTS, Ascii("file already exists"));
      return climsg, false;
    } else if ret < 0 {
      return null, false;
    }
    ret := Dcp.ValidateSections(dirmsg.View());
    if ret < 0 {
      return null, false;
    }
    climsg := CreatedResponse(x, dirmsg);
    local := true;
  }

  /** The response with the first file of a reply that passed the checks; nothing when there is none. */
  method CreatedResponse(x: Session, dirmsg: Fsmsg) returns (climsg: Fsmsg?)
    requires dirmsg.Valid() && Headed(DCP, dirmsg.View()) && Open(dirmsg.View())
    requires Dcp.CheckResponse(Some(dirmsg.View()), x.dirTid, x.sid, x.fsid, DCP_CREATE) >= 0
    requires Dcp.Accepts(dirmsg.View())
    ensures climsg != null ==> fresh(climsg) && fresh(climsg.sections) && climsg.Valid()
    ensures ViewOf(climsg) == Sealed(CreateReply(x, Some(dirmsg.View())).0)
    ensures CreateReply(x, Some(dirmsg.View())).1
  {
    hide CreateReply, Dcp.CheckResponse, Dcp.Accepts;
    CreateReplyCopies(x, dirmsg.View());
    if dirmsg.sections.Length < 3 {
      return null;
    }
    climsg := TwoCopied(x, dirmsg);
  }

  lemma CreateReplyCopies(x: Session, m: Msg)
    requires Headed(DCP, m) && Open(m)
    requires Dcp.CheckResponse(Some(m), x.dirTid, x.sid, x.fsid, DCP_CREATE) >= 0 && Dcp.Accepts(m)
    ensures CreateReply(x, Some(m)) ==
              (if |m.sections| < 2 then None
               else Some(Msg(x.tid, [x.sid, x.cid, x.fsid], FAP_RESPONSE,
                             [Integer(RESP_FILEINFO), m.sections[0], m.sections[1]])), true)
  {
    ContentOfOpen(m.sections);
  }

  method TwoCopied(x: Session, dirmsg: Fsmsg) returns (climsg: Fsmsg)
    requires dirmsg.Valid() && |dirmsg.Listed()| >= 2
    ensures fresh(climsg) && fresh(climsg.sections) && climsg.Valid()
    ensures climsg.View() == Seal(Msg(x.tid, [x.sid, x.cid, x.fsid], FAP_RESPONSE,
                                      [Integer(RESP_FILEINFO), dirmsg.Listed()[0], dirmsg.Listed()[1]]))
  {
    ghost var s := dirmsg.Listed();
    climsg := CreateMsg(FAP, x.tid, [x.sid, x.cid, x.fsid], FAP_RESPONSE);
    climsg.AddSection(Integer(RESP_FILEINFO));
    climsg.AddSection(dirmsg.sections[0].value);
    climsg.AddSection(dirmsg.sections[1].value);
    assert climsg.Listed() == [Integer(RESP_FILEINFO), s[0], s[1]];
    climsg.AddSection(NoNext);
  }

  /** What write_file makes of the reply. */
  method WriteResponse(x: Session, dirmsg: Fsmsg?) returns (climsg: Fsmsg?, accepted: bool)
    requires dirmsg != null ==> dirmsg.Valid() && Headed(DCP, dirmsg.View()) && Open(dirmsg.View())
    ensures climsg != null ==> fresh(climsg) && fresh(climsg.sections) && climsg.Valid()
    ensures accepted == WriteReply(x, ViewOf(dirmsg)).1
    ensures ViewOf(climsg) == ToClient(x, WriteReply(x, ViewOf(dirmsg)).0)
  {
    var ret := Dcp.CheckResponse(ViewOf(dirmsg), x.dirTid, x.sid, x.fsid, DCP_UPDATE);
    if ret == -5 {
      climsg := FapError(x, IntegerAt(dirmsg.Listed(), 0), Ascii("error"));
      return climsg, false;
    } else if ret < 0 {
      return null, false;
    }
    ret := Dcp.ValidateSections(dirmsg.View());
    if ret < 0 {
      return null, false;
    }
    climsg := FapOk(x);
    return climsg, true;
  }

  method HostsIn(x: Session, dirmsg: Fsmsg?) returns (hosts: seq<blob>)
    requires dirmsg != null ==> dirmsg.Valid() && Headed(DCP, dirmsg.View())
    ensures hosts == ReplicaHosts(x, ViewOf(dirmsg))
  {
    if Dcp.CheckResponse(ViewOf(dirmsg), x.dirTid, x.sid, x.fsid, DCP_GET_REPLICAS) < 0 {
      return [];
    }
    var ret := Dcp.ValidateSections(dirmsg.View());
    if ret < 0 || dirmsg.kind != DCP_REPLICA_STATUS {
      return [];
    }
    hosts := Dcp.BodyOf(dirmsg.View()).hosts;
  }

  // ---- The copy step ---------------------------------------------------------------------------------

  method FctpCreateMsg(tid: uint64, sid: uint64, fsid: uint64, kind: uint16, sections: seq<Section>)
    returns (msg: Fsmsg)
    requires |sections| <= 2
    ensures fresh(msg) && fresh(msg.sections) && msg.Valid()
    ensures msg.View() == Seal(FctpMessage(tid, sid, fsid, kind, sections))
  {
    msg := CreateMsg(FCTP, tid, [sid, fsid], kind);
    if |sections| > 0 {
      msg.AddSection(sections[0]);
    }
    if |sections| > 1 {
      msg.AddSection(sections[1]);
    }
    assert msg.Listed() == sections;
    msg.AddSection(NoNext);
  }

  /** One connection of fctp_server. */
  method FctpServerTurn(files: Store, sid: uint64, fsid: uint64, bs: bytes) returns (answer: Fsmsg?)
    ensures answer != null ==> fresh(answer) && fresh(answer.sections) && answer.Valid()
    ensures ViewOf(answer) == Sealed(FctpServe(files, sid, fsid, Parsed(FCTP, bs)))
  {
    var msg := Receive(FCTP, bs);
    if msg == null || msg.kind != FCTP_DOWNLOAD {
      return null;
    }
    var s := msg.Listed();
    if s == [] || !s[0].Text? {
      return null;
    }
    var q := Tokens(CString(s[0].data));
    if q in files {
      answer := FctpCreateMsg(msg.tid, sid, fsid, FCTP_OK, [Binary(files[q])]);
    } else {
      answer := FctpCreateMsg(msg.tid, sid, fsid, FCTP_ERROR,
                              [Integer(ERR_FILENOTFOUND), Text(Ascii("no local file found"))]);
    }
  }

  /** The exchange of fctp_get_file with the server that holds peer. */
  method FctpGetFile(peer: Store, tid: uint64, sid: uint64, theirs: uint64, fsid: uint64, path: blob)
    returns (d: Option<blob>)
    ensures d == FctpGet(peer, tid, sid, theirs, fsid, path)
  {
    var there := FctpRequest(tid, sid, fsid, path);
    var back := FctpTalk(peer, theirs, fsid, there);
    if back.None? {
      return None;
    }
    var msg := Receive(FCTP, back.value);
    if msg == null {
      return None;
    }
    d := FctpContents(msg.View());
  }

  method FctpRequest(tid: uint64, sid: uint64, fsid: uint64, path: blob) returns (bs: bytes)
    ensures bs == Encode(Seal(Download(tid, sid, fsid, path)))
  {
    var request := FctpCreateMsg(tid, sid, fsid, FCTP_DOWNLOAD, [Text(path)]);
    bs := Print(request, FCTP);
  }

  /** The bytes that come back from a server. */
  method FctpTalk(peer: Store, theirs: uint64, fsid: uint64, bs: bytes) returns (back: Option<bytes>)
    ensures back == match FctpServe(peer, theirs, fsid, Parsed(FCTP, bs))
                    case None => None
                    case Some(m) => Some(Encode(Seal(m)))
  {
    var answer := FctpServerTurn(peer, theirs, fsid, bs);
    if answer == null {
      return None;
    }
    var printed := Print(answer, FCTP);
    back := Some(printed);
  }

  /** The loop of ask_file: the hosts are tried in turn until one delivers. */
  method FetchFromHosts(infos: seq<ServerInfo>, slot: nat, peers: seq<Store>, hosts: seq<blob>, tid: uint64,
                        files: Store, path: blob) returns (files': Store)
    requires |peers| == |infos| && slot < |infos| && 0 !in path
    ensures files' == WithCopy(infos, peers, hosts, files, Tokens(path))
  {
    hide FctpGet, Tokens, Written;
    files' := files;
    var i := 0;
    assert hosts[0..] == hosts;
    while i < |hosts|
      invariant 0 <= i <= |hosts| && files' == files
      invariant FirstCopy(infos, peers, hosts, Tokens(path)) == FirstCopy(infos, peers, hosts[i..], Tokens(path))
    {
      var t := HostNamed(infos, hosts[i]);
      if t.Some? {
        var d := FctpGetFile(peers[t.value], tid, infos[slot].id, infos[t.value].id, DIRECTORY_FSID, path);
        FctpDeliversFile(peers[t.value], tid, infos[slot].id, infos[t.value].id, DIRECTORY_FSID, path);
        if d.Some? {
          return Written(files, Tokens(path), d.value);
        }
      }
      assert hosts[i..][1..] == hosts[i + 1..];
      i := i + 1;
    }
  }

  // ---- The server --------------------------------------------------------------------------------------

  /** struct client_info, as far as the handlers use it. */
  class ClientInfo {
    var id: uint64
    var lasttid: uint64
    const user: blob

    constructor (id: uint64, user: blob)
      ensures this.id == id && this.user == user && lasttid == 0
    {
      this.id, this.user, lasttid := id, user, 0;
    }
  }

  /** What the file server has: its files, its end of the line to the directory, and the pieces that have come on the
      data connection. */
  class FileServer {
    var files: Store
    var serving: bool
    var unread: bytes
    var data: seq<bytes>

    constructor (files: Store)
      ensures View() == Local(files, IN_STEP, [])
    {
      this.files, serving, unread, data := files, true, [], [];
    }

    function View(): Local
      reads this
    {
      Local(files, Line(serving, unread), data)
    }

    /** The request goes to the directory; what comes back is put behind what is unread. */
    method Send(dir: Directory, site: Site, request: Fsmsg, ghost m: Msg)
      requires dir.Linked() && Serves(site, dir.tree)
      requires request.Valid() && request.View() == Seal(m) && Headed(DCP, m) && Open(m)
      modifies dir`arena, dir`firsts, dir`nexts, dir`tree, dir.arena, this`serving, this`unread
      ensures dir.Linked() && Grown(old(dir.arena), dir.arena) && OwnersKnown(dir.tree, |site.infos|)
      ensures (dir.tree, View().line) == Post(old(dir.tree), site.infos, site.slot, old(View()).line, m)
    {
      hide ServeStream, Post;
      if serving {
        PostIsService(dir.tree, site.infos, site.slot, unread, m);
        var bs := Print(request, DCP);
        var sock := new Socket(bs);
        var out, waits := dir.ServeFileserver(site.infos, site.slot, sock);
        unread, serving := unread + out, waits;
      } else {
        PostNowhere(dir.tree, site.infos, site.slot, unread, m);
      }
    }

    /** fsmsg_from_socket on the line; heard is false while it waits for more. */
    method Hear() returns (heard: bool, reply: Fsmsg?)
      modifies this`unread
      ensures reply != null ==>
                && fresh(reply) && fresh(reply.sections) && reply.Valid()
                && Headed(DCP, reply.View()) && Open(reply.View())
      ensures (View().line, if heard then Heard(ViewOf(reply)) else Waits) == Lines.Hear(old(View()).line)
      ensures !heard ==> reply == null
    {
      var sock := new Socket(unread);
      reply := FsmsgFromSocket(sock, DCP);
      heard := !sock.starved;
      if reply != null {
        DecodeIsEncodeInverse(DCP, unread);
      }
      if heard {
        unread := sock.data;
      }
    }

    /** Sends a request that was built for b, and parses what has come. */
    method Ask(dir: Directory, site: Site, x: Session, request: Fsmsg, ghost b: Dcp.Body)
      returns (heard: bool, reply: Fsmsg?, ghost asked: Asked)
      requires dir.Linked() && Serves(site, dir.tree)
      requires request.Valid() && request.View() == Seal(Dcp.Asking(x.dirTid, x.sid, x.fsid, b))
      modifies dir`arena, dir`firsts, dir`nexts, dir`tree, dir.arena, this`serving, this`unread
      ensures dir.Linked() && Grown(old(dir.arena), dir.arena) && Serves(site, dir.tree)
      ensures reply != null ==>
                && fresh(reply) && fresh(reply.sections) && reply.Valid()
                && Headed(DCP, reply.View()) && Open(reply.View())
      ensures asked == Sessions.Ask(old(dir.tree), site, x, old(View()), b)
      ensures asked == Asked(dir.tree, View().line, if heard then Heard(ViewOf(reply)) else Waits)
    {
      hide Post, Lines.Hear;
      asked := Sessions.Ask(dir.tree, site, x, View(), b);
      Send(dir, site, request, Dcp.Asking(x.dirTid, x.sid, x.fsid, b));
      heard, reply := Hear();
    }

    /** list_directory. */
    method ListDirectory(dir: Directory, site: Site, x: Session, recurse: int32, path: blob) returns (r: Step)
      requires dir.Linked() && Serves(site, dir.tree)
      modifies dir`arena, dir`firsts, dir`nexts, dir`tree, dir.arena, this`serving, this`unread
      ensures dir.Linked() && Grown(old(dir.arena), dir.arena) && Serves(site, dir.tree)
      ensures var (t, turn) := ListTurn(old(dir.tree), site, x, old(View()), recurse, path);
              dir.tree == t && Does(View(), r, turn)
    {
      hide Sessions.Ask, ListReply;
      var request := ListRequest(x, recurse, path);
      var heard, dirmsg, asked := Ask(dir, site, x, request, Dcp.Read(recurse, path));
      if !heard {
        return Step([], [], Some(Stuck));
      }
      var climsg := ListResponse(x, dirmsg);
      var control := PrintResponse(climsg, ListReply(x, ViewOf(dirmsg)));
      r := Step(control, [], None);
    }

    /** create_file: the local file is made when the directory's reply passes. */
    method CreateFile(dir: Directory, site: Site, x: Session, path: blob) returns (r: Step)
      requires dir.Linked() && Serves(site, dir.tree)
      modifies dir`arena, dir`firsts, dir`nexts, dir`tree, dir.arena, this
      ensures dir.Linked() && Grown(old(dir.arena), dir.arena) && Serves(site, dir.tree)
      ensures var (t, turn) := CreateTurn(old(dir.tree), site, x, old(View()), path);
              dir.tree == t && Does(View(), r, turn)
    {
      hide Sessions.Ask, CreateReply, Written, Tokens;
      var request := CreationRequest(x, path, site.user);
      var heard, dirmsg, asked := Ask(dir, site, x, request, CreateRequest(path, site.user));
      if !heard {
        return Step([], [], Some(Stuck));
      }
      var climsg, local := CreateResponse(x, dirmsg);
      CreateReplyHeaded(x, ViewOf(dirmsg));
      var control := PrintResponse(climsg, CreateReply(x, ViewOf(dirmsg)).0);
      if local {
        files := Written(files, Tokens(path), []);
      }
      r := Step(control, [], if local && climsg == null then Some(Fault) else None);
    }

    /** write_file: once the directory has accepted the update, as many bytes as announced are taken from the data
        connection and written over the local file, which is not truncated. */
    method WriteFile(dir: Directory, site: Site, x: Session, path: blob, length: int32) returns (r: Step)
      requires dir.Linked() && Serves(site, dir.tree) && Chunks(data)
      modifies dir`arena, dir`firsts, dir`nexts, dir`tree, dir.arena, this
      ensures dir.Linked() && Grown(old(dir.arena), dir.arena) && Serves(site, dir.tree)
      ensures var (t, turn) := WriteTurn(old(dir.tree), site, x, old(View()), path, length);
              dir.tree == t && Does(View(), r, turn)
    {
      hide Sessions.Ask, WriteReply, AnswerMessage, ReceivedTurn, Chunks;
      var request := UpdateRequest(x, path, site.user);
      var heard, dirmsg, asked := Ask(dir, site, x, request, WriteRequest(path, site.user));
      if !heard {
        return Step([], [], Some(Stuck));
      }
      var climsg, accepted := WriteResponse(x, dirmsg);
      ghost var answer := WriteReply(x, ViewOf(dirmsg)).0;
      if accepted {
        r := ReceiveInto(x, climsg, answer, path, length);
      } else {
        var control := PrintAnswer(x, climsg, answer);
        r := Step(control, [], None);
      }
    }

    /** Opens the local file without truncating it and receives the announced number of bytes into it. */
    method ReceiveInto(x: Session, climsg: Fsmsg?, ghost answer: Option<Fap.Body>, path: blob, length: int32)
      returns (r: Step)
      requires climsg != null ==> climsg.Valid()
      requires ViewOf(climsg) == ToClient(x, answer) && Chunks(data)
      modifies this`files, this`data
      ensures Does(View(), r, ReceivedTurn(x, answer, old(View()), path, length))
    {
      hide Written, Tokens, Reaches, IsPrefixOf, AnswerMessage;
      var done, written, more := RecvFile(data, length);
      if !done {
        return Step([], [], Some(Waiting));
      }
      var control := PrintAnswer(x, climsg, answer);
      files, data := Written(files, Tokens(path), written), more;
      r := Step(control, [], None);
    }

    /** ask_file: the directory is asked for replicas and the hosts of its reply are tried. */
    method AskFile(dir: Directory, site: Site, x: Session, tid: uint64, path: blob)
      returns (heard: bool, ghost asked: Asked)
      requires dir.Linked() && Serves(site, dir.tree) && 0 !in path
      modifies dir`arena, dir`firsts, dir`nexts, dir`tree, dir.arena, this`serving, this`unread, this`files
      ensures dir.Linked() && Grown(old(dir.arena), dir.arena) && Serves(site, dir.tree)
      ensures asked == Sessions.Ask(old(dir.tree), site, x, old(View()), Dcp.GetReplicas(path))
      ensures dir.tree == asked.tree && View().line == asked.line && heard == asked.heard.Heard?
      ensures files == if heard then WithCopy(site.infos, site.peers, ReplicaHosts(x, asked.heard.reply), old(files),
                                              Tokens(path))
                       else old(files)
    {
      hide Sessions.Ask, ReplicaHosts, WithCopy;
      var request := ReplicaRequest(x, path);
      var dirmsg;
      heard, dirmsg, asked := Ask(dir, site, x, request, Dcp.GetReplicas(path));
      if heard {
        var hosts := HostsIn(x, dirmsg);
        files := FetchFromHosts(site.infos, site.slot, site.peers, hosts, tid, files, path);
      }
    }

    /** serve_file: a file that is not local is asked for first; then its size is announced and its bytes go out on
        the data connection. The server exits when it is still not there. */
    method ServeFile(dir: Directory, site: Site, x: Session, tid: uint64, path: blob) returns (r: Step)
      requires dir.Linked() && Serves(site, dir.tree) && 0 !in path
      modifies dir`arena, dir`firsts, dir`nexts, dir`tree, dir.arena, this`serving, this`unread, this`files
      ensures dir.Linked() && Grown(old(dir.arena), dir.arena) && Serves(site, dir.tree)
      ensures var (t, turn) := ReadTurn(old(dir.tree), site, x, old(View()), path);
              dir.tree == t && Does(View(), r, turn)
    {
      hide Sessions.Ask, ReplicaHosts, WithCopy, FileTurn;
      if Tokens(path) !in files {
        var heard, asked := AskFile(dir, site, x, tid, path);
        if !heard {
          return Step([], [], Some(Stuck));
        }
      }
      r := SendFile(x, path);
    }

    /** What serve_file does when there is nobody to ask any more. */
    method SendFile(x: Session, path: blob) returns (r: Step)
      ensures Does(View(), r, FileTurn(x, View(), path))
    {
      if Tokens(path) !in files {
        return Step([], [], Some(Exited));
      }
      var out := files[Tokens(path)];
      var climsg := FapDataOut(x, Announced(|out|));
      var control := Print(climsg, FAP);
      r := Step(control, out, None);
    }

    /** The switch over the commands. */
    method RunCommand(dir: Directory, site: Site, x: Session, tid: uint64, m: Msg) returns (r: Step)
      requires dir.Linked() && Serves(site, dir.tree) && Chunks(data) && Fap.Accepts(m)
      modifies dir`arena, dir`firsts, dir`nexts, dir`tree, dir.arena, this
      ensures dir.Linked() && Grown(old(dir.arena), dir.arena) && Serves(site, dir.tree)
      ensures var (t, turn) := CommandTurn(old(dir.tree), site, x, old(View()), Fap.Dispatch(m));
              dir.tree == t && Does(View(), r, turn)
    {
      hide ListTurn, CreateTurn, WriteTurn, ReadTurn, Fap.Dispatch, Fap.Accepts, ClientMessage;
      match Fap.Dispatch(m)
      case Some(CmdList(recurse, path)) =>
        r := ListDirectory(dir, site, x, recurse, path);
      case Some(CmdCreate(path, fileType)) =>
        r := CreateFile(dir, site, x, CString(path));
      case Some(CmdWrite(path, length)) =>
        r := WriteFile(dir, site, x, CString(path), length);
      case Some(CmdRead(path, offset, count)) =>
        r := ServeFile(dir, site, x, tid, CString(path));
      case Some(Quit) =>
        var ok := FapOk(x);
        var control := Print(ok, FAP);
        r := Step(control, [], Some(Left));
      case _ =>
        r := Step([], [], None);
    }

    /** One turn of the loop: a message that is not of its kind is answered with an error; otherwise its transaction is
        remembered and its command is run. Quitting frees the client's slot. */
    method ServeMessage(dir: Directory, site: Site, info: ClientInfo, dirTid: uint64, tid: uint64, m: Msg)
      returns (r: Step)
      requires dir.Linked() && Serves(site, dir.tree) && Chunks(data)
      modifies dir`arena, dir`firsts, dir`nexts, dir`tree, dir.arena, this, info
      ensures dir.Linked() && Grown(old(dir.arena), dir.arena) && Serves(site, dir.tree)
      ensures var (t, turn) := MessageTurn(old(dir.tree), site, SessionFor(site, m.tid, dirTid), old(View()), m);
              dir.tree == t && Does(View(), r, turn)
      ensures info.lasttid == Remembered(old(info.lasttid), m)
      ensures info.id == if r.end == Some(Left) then 0 else old(info.id)
    {
      hide CommandTurn, Fap.Dispatch, Fap.Accepts, ClientMessage;
      var x := SessionFor(site, m.tid, dirTid);
      var ret := Fap.ValidateSections(m);
      if ret < 0 {
        var error := FapError(x, ERR_MSG, []);
        var control := Print(error, FAP);
        return Step(control, [], None);
      }
      info.lasttid := m.tid;
      r := RunCommand(dir, site, x, tid, m);
      if r.end == Some(Left) {
        info.id := 0;
      }
    }

    /** One message is read from the connection and served; it is the last when it cannot be parsed. */
    method NextMessage(dir: Directory, site: Site, info: ClientInfo, sock: Socket, tids: nat -> uint64, tid: uint64,
                       n: nat, ghost said: seq<Msg>, ghost out: bytes) returns (r: Step, ghost saying: seq<Msg>)
      requires dir.Linked() && Serves(site, dir.tree) && Chunks(data)
      modifies dir`arena, dir`firsts, dir`nexts, dir`tree, dir.arena, this, info, sock
      ensures dir.Linked() && Grown(old(dir.arena), dir.arena) && Serves(site, dir.tree) && Chunks(data)
      ensures Stream(saying) == Stream(said) + r.control
      ensures r.end.None? ==> |sock.data| < old(|sock.data|)
      ensures info.id == if r.end == Some(Left) then 0 else old(info.id)
      ensures After(said, out,
                    Conversation(old(dir.tree), site, old(View()), tids, n, old(info.lasttid), old(sock.data))) ==
                if r.end.Some? then Result(dir.tree, View(), info.lasttid, saying, out + r.out, r.end.value)
                else After(saying, out + r.out,
                           Conversation(dir.tree, site, View(), tids, n + 1, info.lasttid, sock.data))
    {
      hide Conversation, MessageTurn, Decode, Remembered, Stream, After;
      ghost var t, l, last, bs := dir.tree, View(), info.lasttid, sock.data;
      var msg := FsmsgFromSocket(sock, FAP);
      if msg == null {
        SessionLost(said, out, t, site, l, tids, n, last, bs);
        assert out + [] == out && Stream(said) + [] == Stream(said);
        return Step([], [], Some(Lost)), said;
      }
      var m := msg.View();
      MessageShortens(bs);
      SessionStep(said, out, t, site, l, tids, n, last, bs);
      RestInPieces(t, site, SessionFor(site, m.tid, tids(n)), l, m);
      ghost var response := MessageTurn(t, site, SessionFor(site, m.tid, tids(n)), l, m).1.response;
      SayingStream(said, response);
      saying := Saying(said, response);
      r := ServeMessage(dir, site, info, tids(n), tid, m);
    }

    /** serve_client: messages are read, validated and served until the session ends; everything that goes out, the
        server's state, the directory and the client's record afterwards are those of the conversation. */
    method ServeClient(dir: Directory, site: Site, info: ClientInfo, sock: Socket, tids: nat -> uint64,
                       ftids: nat -> uint64) returns (sent: bytes, out: bytes, end: End)
      requires dir.Linked() && Serves(site, dir.tree) && Chunks(data) && site.cid == info.id
      modifies dir`arena, dir`firsts, dir`nexts, dir`tree, dir.arena, this, info, sock
      ensures dir.Linked() && Grown(old(dir.arena), dir.arena)
      ensures var r := Conversation(old(dir.tree), site, old(View()), tids, 0, old(info.lasttid), old(sock.data));
              && dir.tree == r.tree && View() == r.after && info.lasttid == r.last
              && sent == Stream(r.sent) && out == r.out && end == r.end
      ensures info.id == if end == Left then 0 else old(info.id)
    {
      hide Conversation, After, Stream, Chunks;
      sent, out := [], [];
      ghost var said: seq<Msg> := [];
      ghost var goal := Conversation(dir.tree, site, View(), tids, 0, info.lasttid, sock.data);
      NothingSaid(goal);
      var n := 0;
      while true
        invariant dir.Linked() && Grown(old(dir.arena), dir.arena) && Serves(site, dir.tree) && Chunks(data)
        invariant goal == After(said, out, Conversation(dir.tree, site, View(), tids, n, info.lasttid, sock.data))
        invariant sent == Stream(said) && info.id == old(info.id)
        decreases |sock.data|
      {
        var r;
        r, said := NextMessage(dir, site, info, sock, tids, ftids(n), n, said, out);
        sent, out := sent + r.control, out + r.out;
        if r.end.Some? {
          end := r.end.value;
          return;
        }
        n := n + 1;
      }
    }
  }

  lemma PostNowhere(t: Tree, infos: seq<ServerInfo>, slot: nat, unread: bytes, m: Msg)
    requires Valid(t) && OwnersKnown(t, |infos|) && slot < |infos|
    ensures Post(t, infos, slot, Line(false, unread), m) == (t, Line(false, unread))
  {
  }

  // ---- The session by turns -----------------------------------------------------------------------------

  /** The outcome of the whole session after what has already gone out. */
  ghost function After(said: seq<Msg>, out: bytes, r: Result): Result {
    r.(sent := said + r.sent, out := out + r.out)
  }

  lemma {:induction false} StreamConcat(a: seq<Msg>, b: seq<Msg>)
    ensures Stream(a + b) == Stream(a) + Stream(b)
  {
    if a == [] {
      assert a + b == b;
    } else {
      assert (a + b)[0] == a[0] && (a + b)[1..] == a[1..] + b;
      StreamConcat(a[1..], b);
      Associate(Encode(Seal(a[0])), Stream(a[1..]), Stream(b));
    }
  }

  /** What has been said, with the response of one more turn. */
  function Saying(said: seq<Msg>, response: Option<Msg>): seq<Msg> {
    said + if response.None? then [] else [response.value]
  }

  lemma SayingStream(said: seq<Msg>, response: Option<Msg>)
    ensures Stream(Saying(said, response)) == Stream(said) + Printed(response)
  {
    if response.Some? {
      StreamConcat(said, [response.value]);
      assert Stream([response.value][1..]) == [];
      assert Stream([response.value]) == Encode(Seal(response.value)) + [];
    } else {
      assert said + [] == said;
    }
  }

  /** The session when the connection cannot be parsed any more. */
  lemma SessionLost(said: seq<Msg>, out: bytes, t: Tree, site: Site, l: Local, tids: nat -> uint64, n: nat,
                    last: uint64, bs: bytes)
    requires Serves(site, t) && !Decode(FAP, bs).Got?
    ensures After(said, out, Conversation(t, site, l, tids, n, last, bs)) == Result(t, l, last, said, out, Lost)
  {
    assert said + [] == said && out + [] == out;
  }

  /** The session by one turn. */
  lemma SessionStep(said: seq<Msg>, out: bytes, t: Tree, site: Site, l: Local, tids: nat -> uint64, n: nat,
                    last: uint64, bs: bytes)
    requires Serves(site, t) && Decode(FAP, bs).Got?
    ensures var (m, more) := Decode(FAP, bs).value;
            var (u, turn) := MessageTurn(t, site, SessionFor(site, m.tid, tids(n)), l, m);
            && Serves(site, u)
            && After(said, out, Conversation(t, site, l, tids, n, last, bs)) ==
                 if turn.end.Some? then
                   Result(u, turn.after, Remembered(last, m), Saying(said, turn.response), out + turn.out,
                          turn.end.value)
                 else
                   After(Saying(said, turn.response), out + turn.out,
                         Conversation(u, site, turn.after, tids, n + 1, Remembered(last, m), more))
  {
    hide MessageTurn;
    var (m, more) := Decode(FAP, bs).value;
    var x := SessionFor(site, m.tid, tids(n));
    MessageKeeps(t, site, x, l, m);
    var (u, turn) := MessageTurn(t, site, x, l, m);
    var r := if turn.end.Some? then Result(u, turn.after, Remembered(last, m), [], [], turn.end.value)
             else Conversation(u, site, turn.after, tids, n + 1, Remembered(last, m), more);
    Associate(said, if turn.response.None? then [] else [turn.response.value], r.sent);
    Associate(out, turn.out, r.out);
    if turn.end.Some? {
      assert Saying(said, turn.response) + [] == Saying(said, turn.response);
      assert (out + turn.out) + [] == out + turn.out;
    }
  }

  /** What is left of the data connection after a turn is still in pieces. */
  lemma RestInPieces(t: Tree, site: Site, x: Session, l: Local, m: Msg)
    requires Serves(site, t) && Chunks(l.data)
    ensures Chunks(MessageTurn(t, site, x, l, m).1.after.data)
  {
    hide Sessions.Ask, ListReply, CreateReply, WriteReply, ReplicaHosts, WithCopy, Fap.Dispatch, Fap.Accepts, Chunks;
    if Fap.Accepts(m) {
      match Fap.Dispatch(m)
      case Some(CmdWrite(path, length)) => PiecesLeft(l.data, length);
      case _ =>
    }
  }

  lemma {:induction false} PiecesLeft(chunks: seq<bytes>, len: int)
    requires Chunks(chunks)
    ensures ReceivedFrom(chunks, len).Some? ==> Chunks(ReceivedFrom(chunks, len).value.1)
  {
    if len != 0 && chunks != [] {
      PiecesLeft(chunks[1..], len - |chunks[0]|);
    }
  }

  lemma MessageShortens(bs: bytes)
    ensures Decode(FAP, bs).Got? ==> |Decode(FAP, bs).value.1| < |bs|
  {
  }

  lemma NothingSaid(r: Result)
    ensures After([], [], r) == r && Stream([]) == []
  {
    assert [] + r.sent == r.sent && [] + r.out == r.out;
  }
}
