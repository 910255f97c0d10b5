/** What any server can do after any run, and what comes of it: which steps are possible, whole operations of an
    arbitrary server, and what no step touches. */
module Progress {
  import opened Wrappers
  import opened Bytes
  import opened Messages
  import opened Codec
  import opened Sections
  import opened Paths
  import opened DirTree
  import opened DirServer
  import opened Transfer
  import opened Lines
  import opened Protocol
  import opened Owners
  import opened Known
  import Dcp

  // ---- Possible steps -------------------------------------------------------------------------------------

  /** Only server i is another one. */
  predicate OnlyServer(w: World, w': World, i: nat, s: Server) {
    i < |w.servers| && w'.servers == w.servers[i := s]
  }

  /** After any run any idle server can begin any operation: a local file is read at once, and otherwise its request
      is on the way and its answer waited for. */
  lemma AnyBegins(infos: seq<ServerInfo>, run: seq<Action>, w: World, i: nat, a: Asking)
    requires Reached(infos, run) == Some(w) && i < |infos|
    ensures |w.servers| == |infos|
    ensures w.servers[i].phase.Idle? ==>
              var s, after := w.servers[i], Reached(infos, run + [Begin(i, a)]);
              && after.Some? && after.value.tree == w.tree
              && OnlyServer(w, after.value, i,
                            if a.op.OpRead? && Tokens(a.op.path) in s.store then s
                            else s.(phase := Awaiting(a), toDir := s.toDir + [a]))
  {
    hide Reached, Tokens;
    AlwaysFits(infos, run);
    if w.servers[i].phase.Idle? {
      ReachMore(infos, run, w, Begin(i, a));
    }
  }

  /** After any run the directory can serve the first request of any server whose thread runs, if it can be read and
      meets what its handler takes for granted: with the handler's effect, and the answer behind what is unread. */
  lemma AnyServes(infos: seq<ServerInfo>, run: seq<Action>, w: World, i: nat)
    requires Reached(infos, run) == Some(w) && i < |infos|
    ensures Fits(infos, w)
    ensures var s := w.servers[i];
            s.toDir != [] && s.line.serving && Dcp.ReadableBody(Payload(s.toDir[0].op))
            && Demands(w.tree, Payload(s.toDir[0].op)) ==>
              var (t, b) := Handle(w.tree, infos, i, Payload(s.toDir[0].op));
              var after := Reached(infos, run + [Serve(i)]);
              && b.Some? && after.Some? && after.value.tree == t
              && OnlyServer(w, after.value, i,
                            s.(toDir := s.toDir[1..],
                               line := Line(true, s.line.unread + Reply(s.toDir[0].tid, infos[i].id, b.value))))
  {
    hide Reached, Do, Handle, Demands, Reply, Dcp.Answers, OfDirectory;
    AlwaysFits(infos, run);
    var s := w.servers[i];
    if s.toDir != [] && s.line.serving && Dcp.ReadableBody(Payload(s.toDir[0].op))
       && Demands(w.tree, Payload(s.toDir[0].op)) {
      ServeIsHandle(infos, w, Serve(i));
      ReachMore(infos, run, w, Serve(i));
    }
  }

  /** After any run any server that waits can go on as soon as what has come can be parsed or is broken. */
  lemma AnyFinishes(infos: seq<ServerInfo>, run: seq<Action>, w: World, i: nat)
    requires Reached(infos, run) == Some(w) && i < |infos|
    ensures |w.servers| == |infos|
    ensures w.servers[i].phase.Awaiting? && !Decode(DCP, w.servers[i].line.unread).Short? ==>
              var after := Reached(infos, run + [Finish(i)]);
              && after.Some? && after.value.tree == w.tree && |after.value.servers| == |infos|
              && !after.value.servers[i].phase.Awaiting?
              && OnlyServer(w, after.value, i, after.value.servers[i])
  {
    hide Reached, Decode, Passes, Dcp.BodyOf;
    AlwaysFits(infos, run);
    if w.servers[i].phase.Awaiting? && !Decode(DCP, w.servers[i].line.unread).Short? {
      ReachMore(infos, run, w, Finish(i));
    }
  }

  /** After any run any server that fetches can try its next host, or give up when there is none. */
  lemma AnyFetches(infos: seq<ServerInfo>, run: seq<Action>, w: World, i: nat, tid: uint64)
    requires Reached(infos, run) == Some(w) && i < |infos|
    ensures |w.servers| == |infos|
    ensures w.servers[i].phase.Fetching? ==>
              var s, after := w.servers[i], Reached(infos, run + [Fetch(i, tid)]);
              && after.Some? && after.value.tree == w.tree
              && OnlyServer(w, after.value, i, FetchedFrom(infos, w, s))
  {
    hide Reached, FctpGet, Tokens;
    AlwaysFits(infos, run);
    var s := w.servers[i];
    if s.phase.Fetching? {
      ReachMore(infos, run, w, Fetch(i, tid));
      if s.phase.hosts != [] && HostNamed(infos, s.phase.hosts[0]).Some? {
        var t := HostNamed(infos, s.phase.hosts[0]).value;
        FctpDeliversFile(w.servers[t].store, tid, infos[i].id, infos[t].id, DIRECTORY_FSID, s.phase.path);
      }
    }
  }

  /** The first host's file laid over the local one, or the other hosts left to try, or nobody. */
  function FetchedFrom(infos: seq<ServerInfo>, w: World, s: Server): Server
    requires |w.servers| == |infos| && s.phase.Fetching?
  {
    var q, hosts := Tokens(s.phase.path), s.phase.hosts;
    if hosts == [] then s.(phase := Idle)
    else
      var t := HostNamed(infos, hosts[0]);
      if t.Some? && q in w.servers[t.value].store then
        s.(phase := Idle, store := s.store[q := Overlay(w.servers[t.value].store[q], Contents(s.store, q))])
      else s.(phase := Fetching(s.phase.path, hosts[1..]))
  }

  /** In every reachable state, a server that has missed no answer and is busy can be helped on by a step, by itself
      or by the directory, if and only if it does not wait for the answer to a creation or write without a user name
      or a path, and its request is not one that the handler cannot take. */
  lemma BusyMovesIff(infos: seq<ServerInfo>, run: seq<Action>, w: World, i: nat, tid: uint64)
    requires Reached(infos, run) == Some(w) && i < |infos|
    ensures Fits(infos, w)
    ensures var s := w.servers[i];
            s.pace.InStep? && !s.phase.Idle? ==>
              ((Enabled(infos, w, Serve(i)) || Enabled(infos, w, Finish(i)) || Enabled(infos, w, Fetch(i, tid))) <==>
                 !(s.phase.Awaiting? &&
                   var op := s.phase.asking.op;
                   if s.toDir == [] then Nameless(op) else !Nameless(op) && !Demands(w.tree, Payload(op))))
  {
    hide Reached, Hear, Demands, Orderly, Dcp.ReadableBody;
    AlwaysFits(infos, run);
    AlwaysConnected(infos, run);
    var s := w.servers[i];
    assert Steady(s, infos[i]);
    if s.pace.InStep? && s.phase.Awaiting? {
      NamelessUnreadable(s.phase.asking.op);
      UnansweredIff(infos, run, i);
      WaitsInStep(s, infos[i]);
    }
  }

  /** What an orderly server that waits has on its lines. */
  lemma WaitsInStep(s: Server, info: ServerInfo)
    requires Orderly(s, info) && s.phase.Awaiting?
    ensures s.toDir == [] || (s.toDir == [s.phase.asking] && s.line == IN_STEP && Hear(s.line).1.Waits?)
  {
    hide IsReply, Hear;
    NothingHeard(true);
  }

  // ---- Whole operations -----------------------------------------------------------------------------------

  /** An idle server that has missed no answer, after some run. */
  ghost predicate Ready(infos: seq<ServerInfo>, run: seq<Action>, w: World, i: nat) {
    && Reached(infos, run) == Some(w) && i < |infos| && Fits(infos, w) && RootNamed(w.tree)
    && w.servers[i].phase.Idle? && w.servers[i].pace.InStep?
  }

  lemma IdleInStep(infos: seq<ServerInfo>, run: seq<Action>, w: World, i: nat)
    requires Ready(infos, run, w, i)
    ensures w.servers[i].toDir == [] && w.servers[i].line == IN_STEP
  {
    AlwaysConnected(infos, run);
    assert Steady(w.servers[i], infos[i]);
  }

  function Operation(i: nat, a: Asking): seq<Action> {
    [Begin(i, a), Serve(i), Finish(i)]
  }

  /** The server after its answer has come. */
  function Asked(s: Server, a: Asking): Server {
    s.(phase := Awaiting(a))
  }

  /** The operation can always be begun and served. */
  lemma OperationServed(infos: seq<ServerInfo>, run: seq<Action>, w: World, i: nat, a: Asking) returns (w': World)
    requires Ready(infos, run, w, i) && !(a.op.OpRead? && Tokens(a.op.path) in w.servers[i].store)
    requires Dcp.ReadableBody(Payload(a.op)) && Demands(w.tree, Payload(a.op))
    ensures Reached(infos, run + [Begin(i, a), Serve(i)]) == Some(w') && Fits(infos, w')
    ensures var (t, b) := Handle(w.tree, infos, i, Payload(a.op));
            && b.Some? && w'.tree == t
            && OnlyServer(w, w', i, w.servers[i].(phase := Awaiting(a),
                                                  line := Line(true, Reply(a.tid, infos[i].id, b.value))))
  {
    hide Reached, Handle, Demands, Reply, Tokens, Dcp.ReadableBody, Valid, OwnersKnown, RootNamed;
    IdleInStep(infos, run, w, i);
    AnyBegins(infos, run, w, i, a);
    var w1 := Reached(infos, run + [Begin(i, a)]).value;
    assert w.servers[i].toDir + [a] == [a];
    AnyServes(infos, run + [Begin(i, a)], w1, i);
    assert run + [Begin(i, a)] + [Serve(i)] == run + [Begin(i, a), Serve(i)];
    w' := Reached(infos, run + [Begin(i, a), Serve(i)]).value;
    AlwaysFits(infos, run + [Begin(i, a), Serve(i)]);
    var b := Handle(w.tree, infos, i, Payload(a.op)).1.value;
    assert [] + Reply(a.tid, infos[i].id, b) == Reply(a.tid, infos[i].id, b);
    assert [a][1..] == [];
  }

  /** And finished, when its answer can be parsed. */
  lemma OperationRuns(infos: seq<ServerInfo>, run: seq<Action>, w: World, i: nat, a: Asking) returns (w': World)
    requires Ready(infos, run, w, i) && !(a.op.OpRead? && Tokens(a.op.path) in w.servers[i].store)
    requires Dcp.ReadableBody(Payload(a.op)) && Demands(w.tree, Payload(a.op))
    requires var b := Handle(w.tree, infos, i, Payload(a.op)).1; b.Some? ==> Dcp.ReadableBody(b.value)
    ensures Reached(infos, run + Operation(i, a)) == Some(w') && Fits(infos, w') && RootNamed(w'.tree)
    ensures var (t, b) := Handle(w.tree, infos, i, Payload(a.op));
            && b.Some? && w'.tree == t
            && OnlyServer(w, w', i, Finished(Asked(w.servers[i], a), infos[i],
                                             Some(Dcp.Message(a.tid, infos[i].id, DIRECTORY_FSID, b.value))))
  {
    hide Reached, Handle, Demands, Reply, Tokens, Dcp.ReadableBody, Hear, Finished, Dcp.Message, Arrived, Slipped,
         Valid, OwnersKnown, RootNamed, OfDirectory, Dcp.Answers;
    IdleInStep(infos, run, w, i);
    var w2 := OperationServed(infos, run, w, i, a);
    var b := Handle(w.tree, infos, i, Payload(a.op)).1.value;
    HandleAnswers(w.tree, infos, i, a.op);
    var s2 := w2.servers[i];
    ReplyHeard(s2, infos[i], a, b);
    ReachMore(infos, run + [Begin(i, a), Serve(i)], w2, Finish(i));
    assert run + [Begin(i, a), Serve(i)] + [Finish(i)] == run + Operation(i, a);
    w' := Do(infos, w2, Finish(i));
    AlwaysFits(infos, run + Operation(i, a));
    assert w2.servers[i := w'.servers[i]] == w.servers[i := w'.servers[i]];
  }

  lemma PassedReply(info: ServerInfo, a: Asking, b: Dcp.Body)
    requires Dcp.Answers(Dcp.KindOf(Payload(a.op)), b)
    ensures Passes(info, a, Some(Dcp.Message(a.tid, info.id, DIRECTORY_FSID, b))) <==> !b.Failure?
  {
    hide Dcp.Accepts, Dcp.CheckResponse;
    Dcp.OwnIdsPass(a.tid, info.id, DIRECTORY_FSID, Dcp.KindOf(Payload(a.op)), b);
    if !b.Failure? {
      Dcp.ReplyAccepted(a.tid, info.id, DIRECTORY_FSID, Dcp.KindOf(Payload(a.op)), b);
    }
  }

  /** What the server does with an answer of the directory. */
  lemma AnswerFinishes(s: Server, info: ServerInfo, a: Asking, b: Dcp.Body)
    requires s.phase == Awaiting(a) && Dcp.Answers(Dcp.KindOf(Payload(a.op)), b)
    ensures var s' := Finished(s, info, Some(Dcp.Message(a.tid, info.id, DIRECTORY_FSID, b)));
            && (b.Failure? ==> s' == s.(phase := Idle))
            && (a.op.OpList? ==> s' == s.(phase := Idle))
            && (!b.Failure? && a.op.OpCreate? ==>
                  s' == s.(phase := Idle, store := Written(s.store, Tokens(a.op.path), [])))
            && (!b.Failure? && a.op.OpWrite? ==>
                  s' == s.(phase := Idle, store := Written(s.store, Tokens(a.op.path), a.op.data)))
            && (b.ReplicaStatus? && a.op.OpRead? ==> s' == s.(phase := Fetching(a.op.path, b.hosts)))
  {
    hide Dcp.Accepts, Dcp.BodyOf, Passes, Written, Tokens;
    PassedReply(info, a, b);
    if !b.Failure? {
      Dcp.BodyOfBuilt(a.tid, info.id, DIRECTORY_FSID, b);
    }
  }

  /** After any run, the write of a known path by any server that is ready goes through: its data lies over its
      file, the server is the owner, and nothing else is another. */
  lemma WriteRuns(infos: seq<ServerInfo>, run: seq<Action>, w: World, i: nat, tid: uint64, path: text, user: blob,
                  data: blob) returns (w': World)
    requires Ready(infos, run, w, i) && path != [] && user != [] && Lookup(w.tree, path).Some?
    ensures Reached(infos, run + Operation(i, Asking(tid, OpWrite(path, user, data)))) == Some(w')
    ensures HasOwner(w.tree, w'.tree, path, i)
    ensures var q, s := Tokens(path), w.servers[i];
            OnlyServer(w, w', i, s.(store := s.store[q := Overlay(data, if q in s.store then s.store[q] else [])]))
  {
    hide Reached, Handle, Tokens, Finished, Dcp.Message, HasOwner, SetOwner, Valid, OwnersKnown, Overlay;
    var a := Asking(tid, OpWrite(path, user, data));
    RequestPath(a.op);
    WriterOwns(w.tree, path, i);
    WriteHandled(w.tree, infos, i, a.op);
    w' := OperationRuns(infos, run, w, i, a);
    HandleAnswers(w.tree, infos, i, a.op);
    AnswerFinishes(Asked(w.servers[i], a), infos[i], a, Handle(w.tree, infos, i, Payload(a.op)).1.value);
  }

  lemma WriteHandled(t: Tree, infos: seq<ServerInfo>, i: nat, op: Op)
    requires Valid(t) && OwnersKnown(t, |infos|) && i < |infos| && RootNamed(t) && op.OpWrite?
    ensures Demands(t, Payload(op))
    ensures var (u, b) := Handle(t, infos, i, Payload(op));
            && b.Some? && Dcp.ReadableBody(b.value)
            && (if Lookup(t, op.path).Some? then u == SetOwner(t, Lookup(t, op.path).value, i) && b.value.FileList?
                else u == t && b.value.Failure?)
  {
    hide Tokens, SetOwner;
    RequestPath(op);
    NamedReply(t, infos, i, Payload(op));
  }

  /** That of an unknown path is refused, and leaves everything as it was. */
  lemma WriteRefusedRuns(infos: seq<ServerInfo>, run: seq<Action>, w: World, i: nat, tid: uint64, path: text,
                         user: blob, data: blob)
    requires Ready(infos, run, w, i) && path != [] && user != [] && Lookup(w.tree, path).None?
    ensures Reached(infos, run + Operation(i, Asking(tid, OpWrite(path, user, data)))) == Some(w)
  {
    hide Reached, Handle, Tokens, Finished, Dcp.Message, Valid, OwnersKnown;
    var a := Asking(tid, OpWrite(path, user, data));
    WriteHandled(w.tree, infos, i, a.op);
    var w' := OperationRuns(infos, run, w, i, a);
    HandleAnswers(w.tree, infos, i, a.op);
    AnswerFinishes(Asked(w.servers[i], a), infos[i], a, Handle(w.tree, infos, i, Payload(a.op)).1.value);
    assert w.servers[i := w.servers[i]] == w.servers;
  }

  /** After any run, the creation of a new path by any server that is ready makes its file, empty or as it was, and
      at most that one path in the directory, with the server as its owner if the parent exists. */
  lemma CreateRuns(infos: seq<ServerInfo>, run: seq<Action>, w: World, i: nat, tid: uint64, path: text, user: blob)
    returns (w': World)
    requires Ready(infos, run, w, i) && user != [] && Lookup(w.tree, path).None?
    requires SLASH in path && !EndsInSlash(path)
    ensures Reached(infos, run + Operation(i, Asking(tid, OpCreate(path, user)))) == Some(w')
    ensures HasNew(w.tree, w'.tree, path, i)
    ensures var q, s := Tokens(path), w.servers[i];
            OnlyServer(w, w', i, s.(store := s.store[q := if q in s.store then s.store[q] else []]))
  {
    hide Reached, Handle, Tokens, Finished, Dcp.Message, HasNew, AddNode, Valid, OwnersKnown, Written;
    var a := Asking(tid, OpCreate(path, user));
    RequestPath(a.op);
    AddedIsNew(w.tree, path, i);
    CreateHandled(w.tree, infos, i, a.op);
    w' := OperationRuns(infos, run, w, i, a);
    HandleAnswers(w.tree, infos, i, a.op);
    AnswerFinishes(Asked(w.servers[i], a), infos[i], a, Handle(w.tree, infos, i, Payload(a.op)).1.value);
    MadeFile(w.servers[i].store, Tokens(path));
  }

  lemma CreateHandled(t: Tree, infos: seq<ServerInfo>, i: nat, op: Op)
    requires Valid(t) && OwnersKnown(t, |infos|) && i < |infos| && RootNamed(t) && op.OpCreate?
    requires Lookup(t, op.path).None? ==> SLASH in op.path
    ensures Demands(t, Payload(op))
    ensures var (u, b) := Handle(t, infos, i, Payload(op));
            && b.Some?
            && (if Lookup(t, op.path).Some? then u == t && b.value.Failure?
                else u == AddNode(t, op.path, Some(i)) && b.value.FileList?
                     && (!EndsInSlash(op.path) ==> Dcp.ReadableBody(b.value)))
  {
    hide Tokens, AddNode;
    RequestPath(op);
    NamedReply(t, infos, i, Payload(op));
  }

  /** That of an existing path is refused, and leaves everything as it was. */
  lemma CreateRefusedRuns(infos: seq<ServerInfo>, run: seq<Action>, w: World, i: nat, tid: uint64, path: text,
                          user: blob)
    requires Ready(infos, run, w, i) && path != [] && user != [] && Lookup(w.tree, path).Some?
    ensures Reached(infos, run + Operation(i, Asking(tid, OpCreate(path, user)))) == Some(w)
  {
    hide Reached, Handle, Tokens, Finished, Dcp.Message, Valid, OwnersKnown;
    var a := Asking(tid, OpCreate(path, user));
    CreateHandled(w.tree, infos, i, a.op);
    var w' := OperationRuns(infos, run, w, i, a);
    HandleAnswers(w.tree, infos, i, a.op);
    AnswerFinishes(Asked(w.servers[i], a), infos[i], a, Handle(w.tree, infos, i, Payload(a.op)).1.value);
    assert w.servers[i := w.servers[i]] == w.servers;
  }

  /** After any run, the listing of an existing directory by any server that is ready leaves everything as it was,
      when the entries have names. */
  lemma ListRuns(infos: seq<ServerInfo>, run: seq<Action>, w: World, i: nat, tid: uint64, recurse: int32, path: text)
    requires Ready(infos, run, w, i) && Demands(w.tree, Dcp.Read(recurse, path)) && Lookup(w.tree, path).Some?
    requires forall k :: 0 <= k < |w.tree[Lookup(w.tree, path).value].kids| ==>
               w.tree[w.tree[Lookup(w.tree, path).value].kids[k]].name != []
    ensures Reached(infos, run + Operation(i, Asking(tid, OpList(recurse, path)))) == Some(w)
  {
    hide Reached, Handle, Tokens, Finished, Dcp.Message, OwnersKnown, Demands;
    var a := Asking(tid, OpList(recurse, path));
    ListHandled(w.tree, infos, i, a.op);
    UnreadableAnswerIff(w.tree, infos, i, a.op);
    var w' := OperationRuns(infos, run, w, i, a);
    HandleAnswers(w.tree, infos, i, a.op);
    AnswerFinishes(Asked(w.servers[i], a), infos[i], a, Handle(w.tree, infos, i, Payload(a.op)).1.value);
    assert w.servers[i := w.servers[i]] == w.servers;
  }

  lemma ListHandled(t: Tree, infos: seq<ServerInfo>, i: nat, op: Op)
    requires Valid(t) && OwnersKnown(t, |infos|) && i < |infos| && op.OpList? && Demands(t, Payload(op))
    ensures Handle(t, infos, i, Payload(op)).0 == t
  {
  }

  /** After any run, a server that is ready and reads a file that it does not have: when the owner in the directory
      has it, the server gets a copy, and nothing else is another. */
  lemma ReadRuns(infos: seq<ServerInfo>, run: seq<Action>, w: World, i: nat, tid: uint64, path: text, o: nat,
                 fetch: uint64) returns (w': World)
    requires Ready(infos, run, w, i) && DistinctAddresses(infos) && Tokens(path) !in w.servers[i].store
    requires OwnerAt(w.tree, Tokens(path)) == Some(o) && o < |infos| && Tokens(path) in w.servers[o].store
    ensures Reached(infos, run + Operation(i, Asking(tid, OpRead(path))) + [Fetch(i, fetch)]) == Some(w')
    ensures w'.tree == w.tree
    ensures var q, s := Tokens(path), w.servers[i];
            OnlyServer(w, w', i, s.(store := s.store[q := w.servers[o].store[q]]))
  {
    hide Reached, Handle, Tokens, Finished, Dcp.Message, OwnersKnown, Valid, OwnerAt;
    var w1 := ReadAnswered(infos, run, w, i, tid, path);
    OwnHost(infos, o);
    AnyFetches(infos, run + Operation(i, Asking(tid, OpRead(path))), w1, i, fetch);
    NewFile(w.servers[i].store, Tokens(path), w.servers[o].store[Tokens(path)]);
    w' := Reached(infos, run + Operation(i, Asking(tid, OpRead(path))) + [Fetch(i, fetch)]).value;
  }

  /** When it has no owner there, or the owner does not have it, everything is as it was in the end. */
  lemma ReadFailsRuns(infos: seq<ServerInfo>, run: seq<Action>, w: World, i: nat, tid: uint64, path: text,
                      fetch: uint64) returns (fetches: seq<Action>)
    requires Ready(infos, run, w, i) && DistinctAddresses(infos) && Tokens(path) !in w.servers[i].store
    requires forall o :: OwnerAt(w.tree, Tokens(path)) == Some(o) && o < |infos| ==> Tokens(path) !in w.servers[o].store
    ensures Reached(infos, run + Operation(i, Asking(tid, OpRead(path))) + fetches) == Some(w)
    ensures fetches in {[], [Fetch(i, fetch), Fetch(i, fetch)]}
  {
    hide Reached, Handle, Tokens, Finished, Dcp.Message, OwnersKnown, Valid, OwnerAt;
    var all := run + Operation(i, Asking(tid, OpRead(path)));
    var w1 := ReadAnswered(infos, run, w, i, tid, path);
    assert w.servers[i := w.servers[i]] == w.servers;
    if OwnerAt(w.tree, Tokens(path)).None? {
      fetches := [];
      assert all + [] == all;
      assert w1 == w;
    } else {
      OwnHost(infos, OwnerAt(w.tree, Tokens(path)).value);
      AnyFetches(infos, all, w1, i, fetch);
      var w2 := Reached(infos, all + [Fetch(i, fetch)]).value;
      assert w1.servers[i].phase.hosts[1..] == [];
      assert w2.servers == w.servers[i := w2.servers[i]];
      AnyFetches(infos, all + [Fetch(i, fetch)], w2, i, fetch);
      fetches := [Fetch(i, fetch), Fetch(i, fetch)];
      assert all + [Fetch(i, fetch)] + [Fetch(i, fetch)] == all + fetches;
      var w3 := Reached(infos, all + fetches).value;
      assert w3.servers == w.servers[i := w.servers[i]];
      assert w3 == w;
    }
  }

  lemma ReadAnswered(infos: seq<ServerInfo>, run: seq<Action>, w: World, i: nat, tid: uint64, path: text)
    returns (w': World)
    requires Ready(infos, run, w, i) && Tokens(path) !in w.servers[i].store
    ensures Reached(infos, run + Operation(i, Asking(tid, OpRead(path)))) == Some(w') && w'.tree == w.tree
    ensures var o, s := OwnerAt(w.tree, Tokens(path)), w.servers[i];
            && (o.Some? ==> o.value < |infos|)
            && OnlyServer(w, w', i,
                          if o.Some? then s.(phase := Fetching(path, [infos[o.value].address])) else s)
  {
    hide Reached, Handle, Tokens, Finished, Dcp.Message, OwnersKnown, Valid, OwnerAt, RootNamed;
    var a := Asking(tid, OpRead(path));
    ReplicaAnswer(w.tree, infos, i, path);
    w' := OperationRuns(infos, run, w, i, a);
    HandleAnswers(w.tree, infos, i, a.op);
    AnswerFinishes(Asked(w.servers[i], a), infos[i], a, Handle(w.tree, infos, i, Payload(a.op)).1.value);
  }

  // ---- What no step touches -------------------------------------------------------------------------------

  /** In every state and for every step, every file of every server is as it was, but for the one that the step makes,
      writes or fetches at its own server. */
  lemma StepFrame(infos: seq<ServerInfo>, w: World, a: Action, j: nat, q: seq<bytes>)
    requires Enabled(infos, w, a) && j < |infos| && !(j == a.i && Made(infos, w, a) == Some(q))
    ensures |w.servers| == |Do(infos, w, a).servers| == |infos|
    ensures SameFile(w.servers[j].store, Do(infos, w, a).servers[j].store, q)
  {
    hide Served, Passes, FromHost, Arrived, Tokens, Dcp.BodyOf, Hear;
    OthersUnchanged(infos, w, a);
    ActorInRange(infos, w, a);
    if j == a.i {
      match a
      case Serve(i) => ServeGrows(infos, w, a);
      case Finish(i) => FinishStores(w.servers[i], infos[i], q);
      case Fetch(i, tid) => HostsNeeded(infos, w, i, tid);
      case _ =>
    }
  }

  /** So over any run a file stays as it was while no step makes, writes or fetches it. */
  lemma {:induction false} RunFrame(infos: seq<ServerInfo>, run: seq<Action>, more: seq<Action>, j: nat, q: seq<bytes>)
    requires Reached(infos, run + more).Some? && j < |infos| && !MadeIn(infos, run, more, j, q)
    ensures Reached(infos, run).Some?
    ensures var w, w' := Reached(infos, run).value, Reached(infos, run + more).value;
            |w.servers| == |w'.servers| == |infos| && SameFile(w.servers[j].store, w'.servers[j].store, q)
    decreases |more|
  {
    hide Do, Enabled, Reached, Made;
    RunPrefix(infos, run, more);
    AlwaysFits(infos, run + more);
    AlwaysFits(infos, run);
    if more == [] {
      assert run + more == run;
    } else {
      var less := more[..|more| - 1];
      LastStep(infos, run, more);
      RunFrame(infos, run, less, j, q);
      StepFrame(infos, Reached(infos, run + less).value, more[|more| - 1], j, q);
    }
  }

  /** The last of the later steps. */
  lemma LastStep(infos: seq<ServerInfo>, run: seq<Action>, more: seq<Action>)
    requires more != [] && Reached(infos, run + more).Some?
    ensures var less, a := more[..|more| - 1], more[|more| - 1];
            && Reached(infos, run + less).Some? && Enabled(infos, Reached(infos, run + less).value, a)
            && Reached(infos, run + more).value == Do(infos, Reached(infos, run + less).value, a)
  {
    hide Do, Enabled, Reached;
    RunStep(infos, run + more);
    assert (run + more)[..|run + more| - 1] == run + more[..|more| - 1];
  }

  /** The step makes, writes or fetches the file at server j. */
  predicate MakesAt(infos: seq<ServerInfo>, w: World, a: Action, j: nat, q: seq<bytes>) {
    Enabled(infos, w, a) && a.i == j && Made(infos, w, a) == Some(q)
  }

  /** One of the later steps does. */
  predicate MadeIn(infos: seq<ServerInfo>, run: seq<Action>, more: seq<Action>, j: nat, q: seq<bytes>)
    decreases |more|
  {
    more != [] &&
    (var less, before := more[..|more| - 1], Reached(infos, run + more[..|more| - 1]);
     || MadeIn(infos, run, less, j, q)
     || (before.Some? && MakesAt(infos, before.value, more[|more| - 1], j, q)))
  }

  /** And the file that a step makes is the old one with the data laid over it: nothing for a creation, the client's
      for a write, and the whole file of the host for a fetch. */
  lemma MadeContents(infos: seq<ServerInfo>, w: World, a: Action)
    requires Enabled(infos, w, a) && Made(infos, w, a).Some?
    ensures |w.servers| == |Do(infos, w, a).servers| == |infos|
    ensures var q, s, s' := Made(infos, w, a).value, w.servers[a.i], Do(infos, w, a).servers[a.i];
            && q in s'.store
            && (a.Finish? && s.phase.asking.op.OpCreate? ==> s'.store[q] == Contents(s.store, q))
            && (a.Finish? && s.phase.asking.op.OpWrite? ==>
                  s'.store[q] == Overlay(s.phase.asking.op.data, Contents(s.store, q)))
            && (a.Fetch? ==>
                  && s.phase.hosts != []
                  && var t := HostNamed(infos, s.phase.hosts[0]);
                     && t.Some? && q in w.servers[t.value].store
                     && s'.store[q] == Overlay(w.servers[t.value].store[q], Contents(s.store, q)))
  {
    hide Served, Passes, Arrived, Tokens, Dcp.BodyOf, Hear, FctpGet, Overlay;
    ActorInRange(infos, w, a);
    OthersUnchanged(infos, w, a);
    var s := w.servers[a.i];
    match a
    case Fetch(i, tid) =>
      var t := HostNamed(infos, s.phase.hosts[0]).value;
      FctpDeliversFile(w.servers[t].store, tid, infos[i].id, infos[t].id, DIRECTORY_FSID, s.phase.path);
    case Finish(i) =>
      FinishStores(s, infos[i], Made(infos, w, a).value);
      MadeFile(s.store, Made(infos, w, a).value);
  }
}
