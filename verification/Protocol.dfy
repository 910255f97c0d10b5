/** The distributed protocol as a transition system: one directory, any number of single-threaded file servers
    (src/fsservd.c), their connections to the directory, their local files and the copy step between them.
    On the way to a server a connection is a stream of bytes, and every receive parses what has come; the requests on
    the way to the directory are given by what they ask, since the first that cannot be parsed ends the thread.
    Directory handlers are atomic steps. */
module Protocol {
  import opened Wrappers
  import opened Bytes
  import opened Messages
  import opened Codec
  import opened Sections
  import opened Paths
  import opened DirTree
  import opened DirServer
  import opened Transfer
  import opened Lines
  import Answers
  import EndToEnd
  import Dcp

  /** The paths that a file server hands on are C strings. */
  type text = p: blob | 0 !in p

  /** What a file server asks the directory on behalf of a client. */
  datatype Op =
    | OpList(recurse: int32, path: text)
    | OpCreate(path: text, user: blob)
    | OpWrite(path: text, user: blob, data: blob)
    | OpRead(path: text)

  function Payload(op: Op): Dcp.Body {
    match op
    case OpList(recurse, path) => Dcp.Read(recurse, path)
    case OpCreate(path, user) => Dcp.Create(FileInfo(0, path, user, 0, 0, 0))
    case OpWrite(path, user, _) => Dcp.Update(FileInfo(0, path, user, 0, 0, 0))
    case OpRead(path) => Dcp.GetReplicas(path)
  }

  datatype Asking = Asking(tid: uint64, op: Op)

  datatype Phase =
    | Idle
    | Awaiting(asking: Asking)
    | Fetching(path: text, hosts: seq<blob>)

  /** A mark on the history of a connection: every answer could be parsed, or the last was the first that could not, or
      the server has parsed again since. */
  datatype Pace = InStep | Stumbled | Adrift

  /** A file server, with its requests on the way to the directory and its end of the connection. */
  datatype Server = Server(phase: Phase, store: Store, toDir: seq<Asking>, line: Line, pace: Pace)

  datatype World = World(tree: Tree, servers: seq<Server>)

  function InitialServer(): Server {
    Server(Idle, map[], [], IN_STEP, InStep)
  }

  function InitialWorld(infos: seq<ServerInfo>): World {
    World(InitialTree(), seq(|infos|, _ => InitialServer()))
  }

  // ---- What one server does ----------------------------------------------------------------------

  /** The message a server sends; the directory does not look at the ids of its header. */
  function RequestMessage(info: ServerInfo, a: Asking): (m: Msg)
    ensures Headed(DCP, m) && Open(m)
  {
    Dcp.Asking(a.tid, info.id, DIRECTORY_FSID, Payload(a.op))
  }

  /** A client command arrives at an idle server. A file that is stored locally is read without asking. */
  function Begun(s: Server, a: Asking): Server {
    if a.op.OpRead? && Tokens(a.op.path) in s.store then s
    else s.(phase := Awaiting(a), toDir := s.toDir + [a])
  }

  /** How the reply that a server waits for is checked. */
  function Checked(info: ServerInfo, a: Asking, reply: Option<Msg>): int
    requires reply.Some? ==> Headed(DCP, reply.value)
  {
    Dcp.CheckResponse(reply, a.tid, info.id, DIRECTORY_FSID, Dcp.KindOf(Payload(a.op)))
  }

  /** The checks every handler makes on the directory's reply before it goes on. */
  predicate Passes(info: ServerInfo, a: Asking, reply: Option<Msg>)
    requires reply.Some? ==> Headed(DCP, reply.value)
  {
    Checked(info, a, reply) == 0 && Dcp.Accepts(reply.value)
  }

  /** What the server does with the reply it was waiting for. */
  function Finished(s: Server, info: ServerInfo, reply: Option<Msg>): Server
    requires s.phase.Awaiting? && (reply.Some? ==> Headed(DCP, reply.value))
  {
    if !Passes(info, s.phase.asking, reply) then s.(phase := Idle)
    else match s.phase.asking.op
      case OpList(_, _) => s.(phase := Idle)
      case OpCreate(path, _) => s.(phase := Idle, store := Written(s.store, Tokens(path), []))
      case OpWrite(path, _, data) => s.(phase := Idle, store := Written(s.store, Tokens(path), data))
      case OpRead(path) =>
        if reply.value.kind == DCP_REPLICA_STATUS then s.(phase := Fetching(path, Dcp.BodyOf(reply.value).hosts))
        else s.(phase := Idle)
  }

  function PaceAfter(pace: Pace, reply: Option<Msg>): Pace {
    if !pace.InStep? then Adrift else if reply.None? then Stumbled else InStep
  }

  /** The reply is parsed off the connection. */
  function Taken(s: Server, info: ServerInfo): Server
    requires s.phase.Awaiting? && Hear(s.line).1.Heard?
  {
    var (line, heard) := Hear(s.line);
    Finished(s.(line := line, pace := PaceAfter(s.pace, heard.reply)), info, heard.reply)
  }

  /** One round of the loop over the replica list. */
  function Fetched(s: Server, answer: Option<blob>): Server
    requires s.phase.Fetching?
  {
    if s.phase.hosts == [] then s.(phase := Idle)
    else match answer
      case None => s.(phase := Fetching(s.phase.path, s.phase.hosts[1..]))
      case Some(d) => s.(phase := Idle, store := Written(s.store, Tokens(s.phase.path), d))
  }

  // ---- Steps -------------------------------------------------------------------------------------

  datatype Action =
    | Begin(i: nat, asking: Asking)
    | Serve(i: nat)
    | Finish(i: nat)
    | Fetch(i: nat, tid: uint64)

  predicate Fits(infos: seq<ServerInfo>, w: World) {
    |w.servers| == |infos| && Valid(w.tree) && OwnersKnown(w.tree, |infos|)
  }

  predicate Enabled(infos: seq<ServerInfo>, w: World, a: Action) {
    && Fits(infos, w) && a.i < |infos|
    && var s := w.servers[a.i];
       match a
       case Begin(_, _) => s.phase.Idle?
       case Serve(i) =>
         && s.toDir != [] && s.line.serving
         && (var b := Payload(s.toDir[0].op); Dcp.ReadableBody(b) ==> Demands(w.tree, b))
       case Finish(_) => s.phase.Awaiting? && Hear(s.line).1.Heard?
       case Fetch(_, _) => s.phase.Fetching?
  }

  /** The request at the front is posted. */
  function Served(infos: seq<ServerInfo>, w: World, i: nat): World
    requires Fits(infos, w) && i < |infos| && w.servers[i].toDir != []
  {
    var s := w.servers[i];
    var (t, line) := Post(w.tree, infos, i, s.line, RequestMessage(infos[i], s.toDir[0]));
    World(t, w.servers[i := s.(toDir := s.toDir[1..], line := line)])
  }

  /** What the first host of the list answers. */
  function FromHost(infos: seq<ServerInfo>, w: World, i: nat, tid: uint64): Option<blob>
    requires |w.servers| == |infos| && i < |infos| && w.servers[i].phase.Fetching?
  {
    var s := w.servers[i];
    if s.phase.hosts == [] then None else
      var t :- HostNamed(infos, s.phase.hosts[0]);
      FctpGet(w.servers[t].store, tid, infos[i].id, infos[t].id, DIRECTORY_FSID, s.phase.path)
  }

  function Do(infos: seq<ServerInfo>, w: World, a: Action): World
    requires Enabled(infos, w, a)
  {
    var s := w.servers[a.i];
    match a
    case Begin(i, asking) => w.(servers := w.servers[i := Begun(s, asking)])
    case Serve(i) => Served(infos, w, i)
    case Finish(i) => w.(servers := w.servers[i := Taken(s, infos[i])])
    case Fetch(i, tid) => w.(servers := w.servers[i := Fetched(s, FromHost(infos, w, i, tid))])
  }

  /** The world after a run from the start; None if a step was not possible. */
  function Reached(infos: seq<ServerInfo>, run: seq<Action>): Option<World> {
    if run == [] then Some(InitialWorld(infos)) else
      match Reached(infos, run[..|run| - 1])
      case None => None
      case Some(w) => if Enabled(infos, w, run[|run| - 1]) then Some(Do(infos, w, run[|run| - 1])) else None
  }

  lemma NoSteps(infos: seq<ServerInfo>)
    ensures Reached(infos, []) == Some(InitialWorld(infos))
  {
  }

  /** A run is its front and one more step that was possible. */
  lemma RunStep(infos: seq<ServerInfo>, run: seq<Action>)
    requires run != [] && Reached(infos, run).Some?
    ensures var front, a := run[..|run| - 1], run[|run| - 1];
            && Reached(infos, front).Some? && Enabled(infos, Reached(infos, front).value, a)
            && Reached(infos, run).value == Do(infos, Reached(infos, front).value, a)
  {
    hide Do, Enabled;
  }

  lemma ReachMore(infos: seq<ServerInfo>, run: seq<Action>, w: World, a: Action)
    requires Reached(infos, run) == Some(w) && Enabled(infos, w, a)
    ensures Reached(infos, run + [a]) == Some(Do(infos, w, a))
  {
    hide Do, Enabled;
    assert (run + [a])[..|run|] == run;
  }

  lemma {:induction false} RunPrefix(infos: seq<ServerInfo>, run: seq<Action>, more: seq<Action>)
    requires Reached(infos, run + more).Some?
    ensures Reached(infos, run).Some?
    decreases |more|
  {
    hide Do, Enabled, Reached;
    var all := run + more;
    if more == [] {
      assert all == run;
    } else {
      var less := more[..|more| - 1];
      RunStep(infos, all);
      assert all[..|all| - 1] == run + less;
      RunPrefix(infos, run, less);
    }
  }

  // ---- One request served --------------------------------------------------------------------------

  /** What the parser at the directory makes of a request. */
  lemma RequestArrives(info: ServerInfo, a: Asking)
    ensures var m := RequestMessage(info, a);
            && Transmit(DCP, m) == (if Dcp.ReadableBody(Payload(a.op)) then Some(m) else None)
            && Dcp.Accepts(m) && Dcp.Ruled(m.kind) && Dcp.BodyOf(m) == Payload(a.op) && m.tid == a.tid
  {
    Dcp.AskingArrives(a.tid, info.id, DIRECTORY_FSID, Payload(a.op));
  }

  /** The path of a request is its operation's. */
  lemma RequestPath(op: Op)
    ensures PathOf(Payload(op)) == op.path
  {
    CStringOfText(op.path);
  }

  /** Every request that a handler can take is answered by a payload of the kind it waits for, or an error. */
  lemma HandleAnswers(t: Tree, infos: seq<ServerInfo>, i: nat, op: Op)
    requires Valid(t) && OwnersKnown(t, |infos|) && i < |infos| && Demands(t, Payload(op))
    ensures var b := Handle(t, infos, i, Payload(op)).1;
            b.Some? && Dcp.Answers(Dcp.KindOf(Payload(op)), b.value) && OfDirectory(b.value)
  {
    HandledOfDirectory(t, infos, i, Payload(op));
  }

  /** The server when its request has been answered. */
  function Replied(s: Server, info: ServerInfo, b: Dcp.Body): Server
    requires s.toDir != []
  {
    s.(toDir := s.toDir[1..], line := s.line.(unread := s.line.unread + Reply(s.toDir[0].tid, info.id, b)))
  }

  /** The step serves a request that the directory can read. */
  predicate Serves(infos: seq<ServerInfo>, w: World, a: Action)
    requires Enabled(infos, w, a)
  {
    a.Serve? && Dcp.ReadableBody(Payload(w.servers[a.i].toDir[0].op))
  }

  /** The step written out: the handler's tree, and its reply on the way back. */
  lemma ServeIsHandle(infos: seq<ServerInfo>, w: World, a: Action)
    requires Enabled(infos, w, a) && Serves(infos, w, a)
    ensures Demands(w.tree, Payload(w.servers[a.i].toDir[0].op))
    ensures var op := w.servers[a.i].toDir[0].op;
            var (t, b) := Handle(w.tree, infos, a.i, Payload(op));
            && b.Some? && Dcp.Answers(Dcp.KindOf(Payload(op)), b.value) && OfDirectory(b.value)
            && Do(infos, w, a) == World(t, w.servers[a.i := Replied(w.servers[a.i], infos[a.i], b.value)])
  {
    hide Transmit, Handle, Reply, Demands, Dcp.Accepts, Dcp.BodyOf, Dcp.Answers, OfDirectory;
    var asking := w.servers[a.i].toDir[0];
    var m := RequestMessage(infos[a.i], asking);
    RequestArrives(infos[a.i], asking);
    HandleAnswers(w.tree, infos, a.i, asking.op);
    assert Answer(w.tree, infos, a.i, m) == Some(Handle(w.tree, infos, a.i, Payload(asking.op)));
  }

  /** A request that the parser cannot read ends the thread and changes nothing else. */
  lemma ServeEnds(infos: seq<ServerInfo>, w: World, a: Action)
    requires Enabled(infos, w, a) && a.Serve? && !Serves(infos, w, a)
    ensures var s := w.servers[a.i];
            Do(infos, w, a) ==
              w.(servers := w.servers[a.i := s.(toDir := s.toDir[1..], line := s.line.(serving := false))])
  {
    hide Transmit;
    RequestArrives(infos[a.i], w.servers[a.i].toDir[0]);
  }

  // ---- Every run ---------------------------------------------------------------------------------------

  /** A step acts for one server, and without a request being served it leaves the tree alone. */
  lemma OthersUnchanged(infos: seq<ServerInfo>, w: World, a: Action)
    requires Enabled(infos, w, a)
    ensures var w' := Do(infos, w, a);
            && |w'.servers| == |infos|
            && (forall j :: 0 <= j < |infos| && j != a.i ==> w'.servers[j] == w.servers[j])
            && (!Serves(infos, w, a) ==> w'.tree == w.tree)
  {
    hide Post, Begun, Taken, Fetched, FromHost;
    if a.Serve? && !Serves(infos, w, a) {
      ServeEnds(infos, w, a);
    }
  }

  lemma StepFits(infos: seq<ServerInfo>, w: World, a: Action)
    requires Enabled(infos, w, a)
    ensures Fits(infos, Do(infos, w, a)) && StillResolves(w.tree, Do(infos, w, a).tree)
    ensures RootNamed(w.tree) ==> RootNamed(Do(infos, w, a).tree)
  {
    hide Post, Begun, Taken, Fetched, FromHost, Valid, OwnersKnown, RootNamed, Find;
    OthersUnchanged(infos, w, a);
    if a.Serve? {
      var s := w.servers[a.i];
      PostKeeps(w.tree, infos, a.i, s.line, RequestMessage(infos[a.i], s.toDir[0]));
    }
  }

  lemma {:induction false} AlwaysFits(infos: seq<ServerInfo>, run: seq<Action>)
    requires Reached(infos, run).Some?
    ensures Fits(infos, Reached(infos, run).value) && RootNamed(Reached(infos, run).value.tree)
  {
    hide Do, Enabled;
    if run != [] {
      RunStep(infos, run);
      AlwaysFits(infos, run[..|run| - 1]);
      StepFits(infos, Reached(infos, run[..|run| - 1]).value, run[|run| - 1]);
    }
  }

  /** In every run, whatever is created, a path that has once resolved resolves to the same node ever after. */
  lemma {:induction false} ResolvedForever(infos: seq<ServerInfo>, run: seq<Action>, more: seq<Action>, q: seq<bytes>)
    requires Reached(infos, run + more).Some?
    ensures Reached(infos, run).Some?
    ensures Valid(Reached(infos, run).value.tree) && Valid(Reached(infos, run + more).value.tree)
    ensures Find(Reached(infos, run).value.tree, q).Some? ==>
              Find(Reached(infos, run + more).value.tree, q) == Find(Reached(infos, run).value.tree, q)
    decreases |more|
  {
    hide Do, Enabled, Reached, Find, Valid;
    var all := run + more;
    AlwaysFits(infos, all);
    RunPrefix(infos, run, more);
    AlwaysFits(infos, run);
    if more == [] {
      assert all == run;
    } else {
      var less := more[..|more| - 1];
      RunStep(infos, all);
      assert all[..|all| - 1] == run + less;
      ResolvedForever(infos, run, less, q);
      StepFits(infos, Reached(infos, run + less).value, all[|all| - 1]);
    }
  }

  /** The requests that the directory has served, in the order in which it did. */
  function Requests(infos: seq<ServerInfo>, run: seq<Action>): seq<DirServer.Request>
    requires Reached(infos, run).Some?
  {
    if run == [] then [] else
      RunStep(infos, run);
      var front, a := run[..|run| - 1], run[|run| - 1];
      var w := Reached(infos, front).value;
      Requests(infos, front) +
      if Serves(infos, w, a) then [DirServer.Request(a.i, Payload(w.servers[a.i].toDir[0].op))] else []
  }

  /** However the steps of the servers interleave, the directory is what these requests make of a new one. */
  lemma {:induction false} RunIsRequests(infos: seq<ServerInfo>, run: seq<Action>)
    requires Reached(infos, run).Some?
    ensures DirServer.Run(InitialTree(), infos, Requests(infos, run)) == Some(Reached(infos, run).value.tree)
  {
    hide Do, Enabled, Reached, Handle, Demands, DirServer.Run;
    AlwaysFits(infos, run);
    if run == [] {
      NoSteps(infos);
      NoRequests(InitialTree(), infos);
    } else {
      RunStep(infos, run);
      var front, a := run[..|run| - 1], run[|run| - 1];
      var w := Reached(infos, front).value;
      RunIsRequests(infos, front);
      OthersUnchanged(infos, w, a);
      ActorInRange(infos, w, a);
      if Serves(infos, w, a) {
        ServeIsHandle(infos, w, a);
        DirServer.RunMore(InitialTree(), infos, Requests(infos, front), w.tree,
                          DirServer.Request(a.i, Payload(w.servers[a.i].toDir[0].op)));
      } else {
        assert Requests(infos, run) == Requests(infos, front);
      }
    }
  }

  lemma ActorInRange(infos: seq<ServerInfo>, w: World, a: Action)
    requires Enabled(infos, w, a)
    ensures a.i < |infos| && Fits(infos, w) && (a.Serve? ==> w.servers[a.i].toDir != [])
  {
  }

  // ---- The connections ---------------------------------------------------------------------------

  ghost predicate IsReply(bs: bytes, info: ServerInfo, a: Asking) {
    exists b :: bs == Reply(a.tid, info.id, b) && Dcp.Answers(Dcp.KindOf(Payload(a.op)), b) && OfDirectory(b)
  }

  /** At most one request is outstanding: it is on its way, or its answer is, or the thread that read it ended, which
      happens to the requests that cannot be parsed and to no others. */
  ghost predicate Orderly(s: Server, info: ServerInfo) {
    match s.phase
    case Idle => s.toDir == [] && s.line == IN_STEP
    case Fetching(_, _) => s.toDir == [] && s.line == IN_STEP
    case Awaiting(a) =>
      || (s.toDir == [a] && s.line == IN_STEP)
      || (s.toDir == [] && s.line == Line(false, []) && !Dcp.ReadableBody(Payload(a.op)))
      || (s.toDir == [] && s.line.serving && Dcp.ReadableBody(Payload(a.op)) && IsReply(s.line.unread, info, a))
  }

  ghost predicate Steady(s: Server, info: ServerInfo) {
    match s.pace
    case InStep => Orderly(s, info)
    case Stumbled => Slipped(s.line.unread)
    case Adrift => true
  }

  ghost predicate Connected(infos: seq<ServerInfo>, w: World) {
    && Fits(infos, w) && RootNamed(w.tree)
    && forall i :: 0 <= i < |infos| ==> Steady(w.servers[i], infos[i])
  }

  /** The message that has come, if it can be parsed by now. */
  function Arrived(s: Server): (m: Option<Msg>)
    ensures m.Some? ==> Headed(DCP, m.value)
  {
    Parsed(DCP, s.line.unread)
  }

  /** What is heard of an answer: all of it, or the line is out of step after it. */
  lemma ReplyHeard(s: Server, info: ServerInfo, a: Asking, b: Dcp.Body)
    requires s.line == Line(true, Reply(a.tid, info.id, b))
    requires Dcp.Answers(Dcp.KindOf(Payload(a.op)), b) && OfDirectory(b)
    ensures var m := Dcp.Message(a.tid, info.id, DIRECTORY_FSID, b);
            if Dcp.ReadableBody(b) then Arrived(s) == Some(m) && Hear(s.line) == (IN_STEP, Heard(Some(m)))
            else Arrived(s).None? && Hear(s.line).1 == Heard(None) && Slipped(Hear(s.line).0.unread)
  {
    hide Decode, Encode, Slipped, Unread, Dcp.SectionsOf;
    var m := Dcp.Message(a.tid, info.id, DIRECTORY_FSID, b);
    AnswerHeard(m);
    MessageSections(a.tid, info.id, b);
    Dcp.BodyReadable(b);
    if !Dcp.ReadableBody(b) {
      UnreadSlips(b);
    }
  }

  lemma MessageSections(tid: uint64, id: uint64, b: Dcp.Body)
    ensures Dcp.Message(tid, id, DIRECTORY_FSID, b).sections == Dcp.SectionsOf(b)
  {
  }

  lemma FinishSteady(s: Server, info: ServerInfo)
    requires Steady(s, info) && s.phase.Awaiting? && Hear(s.line).1.Heard?
    ensures Steady(Taken(s, info), info)
  {
    hide Hear, Reply, Slipped, Passes, Dcp.BodyOf, Dcp.Answers, OfDirectory, Tokens, Written;
    NothingHeard(true);
    NothingHeard(false);
    if s.pace.InStep? {
      var a := s.phase.asking;
      var b :| s.line.unread == Reply(a.tid, info.id, b) && Dcp.Answers(Dcp.KindOf(Payload(a.op)), b) && OfDirectory(b);
      ReplyHeard(s, info, a, b);
    }
  }

  lemma ServeSteady(infos: seq<ServerInfo>, w: World, a: Action)
    requires Connected(infos, w) && Enabled(infos, w, a) && a.Serve?
    ensures |Do(infos, w, a).servers| == |infos| && Steady(Do(infos, w, a).servers[a.i], infos[a.i])
  {
    hide Do, Handle, Reply, Slipped, OfDirectory, Dcp.Answers, Demands;
    var s := w.servers[a.i];
    assert Steady(s, infos[a.i]);
    if Serves(infos, w, a) {
      ServeIsHandle(infos, w, a);
      var b := Handle(w.tree, infos, a.i, Payload(s.toDir[0].op)).1.value;
      var reply := Reply(s.toDir[0].tid, infos[a.i].id, b);
      assert [] + reply == reply;
      if s.pace.Stumbled? {
        SlippedGrows(s.line.unread, s.line.unread + reply);
      }
    } else {
      ServeEnds(infos, w, a);
    }
  }

  lemma ActorSteady(infos: seq<ServerInfo>, w: World, a: Action)
    requires Connected(infos, w) && Enabled(infos, w, a)
    ensures |Do(infos, w, a).servers| == |infos| && Steady(Do(infos, w, a).servers[a.i], infos[a.i])
  {
    hide Taken, FromHost, Slipped, IsReply, Served;
    assert Steady(w.servers[a.i], infos[a.i]);
    match a
    case Serve(i) => ServeSteady(infos, w, a);
    case Finish(i) => FinishSteady(w.servers[i], infos[i]);
    case _ =>
  }

  lemma StepConnected(infos: seq<ServerInfo>, w: World, a: Action)
    requires Connected(infos, w) && Enabled(infos, w, a)
    ensures Connected(infos, Do(infos, w, a))
  {
    hide Do, Steady, Enabled;
    StepFits(infos, w, a);
    OthersUnchanged(infos, w, a);
    ActorSteady(infos, w, a);
  }

  lemma InitiallyConnected(infos: seq<ServerInfo>)
    ensures Connected(infos, InitialWorld(infos))
  {
  }

  /** In every reachable state, whatever is created, every connection that has not missed an answer is orderly, and one
      that has just missed its first begins in the middle of it. */
  lemma {:induction false} AlwaysConnected(infos: seq<ServerInfo>, run: seq<Action>)
    requires Reached(infos, run).Some?
    ensures Connected(infos, Reached(infos, run).value)
  {
    hide Do, Enabled, Connected;
    if run == [] {
      InitiallyConnected(infos);
    } else {
      RunStep(infos, run);
      AlwaysConnected(infos, run[..|run| - 1]);
      StepConnected(infos, Reached(infos, run[..|run| - 1]).value, run[|run| - 1]);
    }
  }

  lemma ReplyChecked(s: Server, info: ServerInfo)
    requires Orderly(s, info) && s.phase.Awaiting? && Arrived(s).Some?
    ensures Checked(info, s.phase.asking, Arrived(s)) in {0, -5}
  {
    hide Reply;
    if s.line.unread == [] {
      NothingHeard(s.line.serving);
    } else {
      var a := s.phase.asking;
      var b :| s.line.unread == Reply(a.tid, info.id, b) && Dcp.Answers(Dcp.KindOf(Payload(a.op)), b) && OfDirectory(b);
      ReplyHeard(s, info, a, b);
      Dcp.OwnIdsPass(a.tid, info.id, DIRECTORY_FSID, Dcp.KindOf(Payload(a.op)), b);
    }
  }

  /** In every reachable state, a message that has come on a connection is refused for one of its ids exactly when the
      answer before it was the first that could not be parsed; as long as every answer could be, the message is good or
      an error. (Nothing is claimed of what comes later on a connection that has once been out of step.) */
  lemma RefusedByIdIff(infos: seq<ServerInfo>, run: seq<Action>, i: nat)
    requires Reached(infos, run).Some? && i < |infos| && infos[i].id != 0
    ensures var w := Reached(infos, run).value;
            && |w.servers| == |infos|
            && var s := w.servers[i];
            (s.phase.Awaiting? && Arrived(s).Some? ==>
               && (s.pace.InStep? ==> Checked(infos[i], s.phase.asking, Arrived(s)) in {0, -5})
               && (s.pace.Stumbled? ==> Checked(infos[i], s.phase.asking, Arrived(s)) in {-2, -3})
               && (!s.pace.Adrift? ==>
                     (Checked(infos[i], s.phase.asking, Arrived(s)) in {-2, -3, -4} <==> s.pace.Stumbled?)))
  {
    hide Dcp.CheckResponse, Orderly, Reached, Slipped;
    AlwaysConnected(infos, run);
    var s := Reached(infos, run).value.servers[i];
    assert Steady(s, infos[i]);
    if s.phase.Awaiting? && Arrived(s).Some? {
      var a := s.phase.asking;
      if s.pace.InStep? {
        ReplyChecked(s, infos[i]);
      } else if s.pace.Stumbled? {
        SlippedIsRefused(s.line.unread, a.tid, infos[i].id, DIRECTORY_FSID, Dcp.KindOf(Payload(a.op)));
      }
    }
  }

  /** An answer to server i came in the run that could not be parsed. */
  predicate Missed(infos: seq<ServerInfo>, run: seq<Action>, i: nat)
    requires Reached(infos, run).Some?
  {
    run != [] &&
    (RunStep(infos, run);
     var front, a := run[..|run| - 1], run[|run| - 1];
     || Missed(infos, front, i)
     || (a == Finish(i) && Hear(Reached(infos, front).value.servers[i].line).1.reply.None?))
  }

  /** The mark on a connection says whether its server has missed an answer. */
  lemma {:induction false} PaceIsHistory(infos: seq<ServerInfo>, run: seq<Action>, i: nat)
    requires Reached(infos, run).Some? && i < |infos|
    ensures |Reached(infos, run).value.servers| == |infos|
    ensures Reached(infos, run).value.servers[i].pace.InStep? <==> !Missed(infos, run, i)
  {
    hide Do, Enabled, Reached, Hear;
    AlwaysFits(infos, run);
    if run == [] {
      NoSteps(infos);
    } else {
      RunStep(infos, run);
      var front, a := run[..|run| - 1], run[|run| - 1];
      PaceIsHistory(infos, front, i);
      OthersUnchanged(infos, Reached(infos, front).value, a);
      if a.i == i {
        PaceStep(infos, Reached(infos, front).value, a);
      }
    }
  }

  lemma PaceStep(infos: seq<ServerInfo>, w: World, a: Action)
    requires Enabled(infos, w, a)
    ensures |Do(infos, w, a).servers| == |infos|
    ensures Do(infos, w, a).servers[a.i].pace.InStep? <==>
              w.servers[a.i].pace.InStep? && !(a.Finish? && Hear(w.servers[a.i].line).1.reply.None?)
  {
    hide Hear, Post, FromHost, Passes, Dcp.BodyOf;
  }

  /** An answer of the directory cannot be parsed if and only if it is to the creation of a new path that ends in a
      slash, or to the listing of a directory that has an entry without a name. */
  lemma UnreadableAnswerIff(t: Tree, infos: seq<ServerInfo>, i: nat, op: Op)
    requires Valid(t) && OwnersKnown(t, |infos|) && i < |infos| && RootNamed(t) && Demands(t, Payload(op))
    ensures op.OpList? ==> Lookup(t, op.path).Some?
    ensures var b := Handle(t, infos, i, Payload(op)).1;
            && b.Some?
            && (!Dcp.ReadableBody(b.value) <==>
                  || (op.OpCreate? && Lookup(t, op.path).None? && EndsInSlash(op.path))
                  || (op.OpList? && exists k :: 0 <= k < |t[Lookup(t, op.path).value].kids|
                                                && t[t[Lookup(t, op.path).value].kids[k]].name == []))
  {
    hide Tokens, LastSlash, AddNode, SetOwner;
    RequestPath(op);
    if op.OpCreate? || op.OpWrite? {
      NamedReply(t, infos, i, Payload(op));
    } else if op.OpList? {
      EndToEnd.NamedChildren(t, Lookup(t, op.path).value);
    }
  }

  /** A creation or write without a user name or without a path. */
  predicate Nameless(op: Op) {
    (op.OpCreate? || op.OpWrite?) && (op.user == [] || op.path == [])
  }

  lemma NamelessUnreadable(op: Op)
    ensures Nameless(op) <==> !Dcp.ReadableBody(Payload(op))
  {
  }

  /** In every reachable state, a server whose answers could all be parsed, and whose request the directory has taken,
      waits in vain if and only if the request has no user name or no path: it cannot be parsed, and the directory's
      thread has ended. */
  lemma UnansweredIff(infos: seq<ServerInfo>, run: seq<Action>, i: nat)
    requires Reached(infos, run).Some? && i < |infos|
    ensures var w := Reached(infos, run).value;
            && |w.servers| == |infos|
            && var s := w.servers[i];
            (s.pace.InStep? && s.phase.Awaiting? && s.toDir == [] ==>
               && (Hear(s.line).1.Waits? <==> Nameless(s.phase.asking.op))
               && (Nameless(s.phase.asking.op) ==> s.line == Line(false, [])))
  {
    hide Reached, Hear, Reply, Dcp.ReadableBody;
    AlwaysConnected(infos, run);
    var s := Reached(infos, run).value.servers[i];
    assert Steady(s, infos[i]);
    if s.pace.InStep? && s.phase.Awaiting? && s.toDir == [] {
      var a := s.phase.asking;
      NamelessUnreadable(a.op);
      if Dcp.ReadableBody(Payload(a.op)) {
        var b :| s.line.unread == Reply(a.tid, infos[i].id, b) && Dcp.Answers(Dcp.KindOf(Payload(a.op)), b)
                 && OfDirectory(b);
        ReplyHeard(s, infos[i], a, b);
      } else {
        NothingHeard(false);
      }
    }
  }

  // ---- The steps are the handlers ------------------------------------------------------------------------

  /** The ids of a server's request, with those of the client it works for. */
  function SessionOf(info: ServerInfo, tid: uint64, cid: uint64, ctid: uint64): Answers.Session {
    Answers.Session(info.id, cid, DIRECTORY_FSID, ctid, tid)
  }

  /** What a server does with a reply is what create_file does: the local file is made in the same cases. */
  lemma FinishedCreates(s: Server, info: ServerInfo, reply: Option<Msg>, cid: uint64, ctid: uint64)
    requires s.phase.Awaiting? && s.phase.asking.op.OpCreate? && (reply.Some? ==> Headed(DCP, reply.value))
    ensures Finished(s, info, reply).store ==
              if EndToEnd.CreateReply(SessionOf(info, s.phase.asking.tid, cid, ctid), reply).1
              then Written(s.store, Tokens(s.phase.asking.op.path), []) else s.store
  {
    hide Dcp.CheckResponse, Dcp.Accepts, Content, Written, Tokens;
  }

  /** The same for write_file and the data. */
  lemma FinishedWrites(s: Server, info: ServerInfo, reply: Option<Msg>, cid: uint64, ctid: uint64)
    requires s.phase.Awaiting? && s.phase.asking.op.OpWrite? && (reply.Some? ==> Headed(DCP, reply.value))
    ensures Finished(s, info, reply).store ==
              if EndToEnd.WriteReply(SessionOf(info, s.phase.asking.tid, cid, ctid), reply).1
              then Written(s.store, Tokens(s.phase.asking.op.path), s.phase.asking.op.data) else s.store
  {
    hide Dcp.CheckResponse, Dcp.Accepts, Written, Tokens;
  }

  /** And for ask_file, which goes on with the same hosts. */
  lemma FinishedAsks(s: Server, info: ServerInfo, reply: Option<Msg>, cid: uint64, ctid: uint64)
    requires s.phase.Awaiting? && s.phase.asking.op.OpRead? && (reply.Some? ==> Headed(DCP, reply.value))
    ensures var hosts := EndToEnd.ReplicaHosts(SessionOf(info, s.phase.asking.tid, cid, ctid), reply);
            var s' := Finished(s, info, reply);
            if s'.phase.Fetching? then s'.phase == Fetching(s.phase.asking.op.path, hosts)
            else s'.phase.Idle? && hosts == []
  {
    hide Dcp.CheckResponse, Dcp.Accepts, Dcp.Shape;
  }
}
