/** Stored files and the directory over every run: whether it knows the path of every file that is stored somewhere. */
module Known {
  import opened Wrappers
  import opened Bytes
  import opened Messages
  import opened Codec
  import opened Sections
  import opened Paths
  import opened DirTree
  import opened DirServer
  import opened Transfer
  import opened Lines
  import opened Protocol
  import opened Owners
  import Dcp

  /** A file that is stored somewhere is known to the directory. */
  ghost predicate StoredIsKnown(w: World)
    requires Valid(w.tree)
  {
    forall i, q :: 0 <= i < |w.servers| && q in w.servers[i].store ==> Find(w.tree, q).Some?
  }

  /** The path of the file that the step makes or writes, if there is one. */
  function Made(infos: seq<ServerInfo>, w: World, a: Action): Option<seq<bytes>>
    requires Enabled(infos, w, a)
  {
    var s := w.servers[a.i];
    match a
    case Finish(i) =>
      var asking := s.phase.asking;
      if Stores(asking.op) && Passes(infos[i], asking, Arrived(s)) then Some(Tokens(asking.op.path)) else None
    case Fetch(i, tid) => if FromHost(infos, w, i, tid).Some? then Some(Tokens(s.phase.path)) else None
    case _ => None
  }

  lemma MadeIsStored(infos: seq<ServerInfo>, w: World, a: Action, q: seq<bytes>)
    requires Enabled(infos, w, a)
    ensures |Do(infos, w, a).servers| == |infos|
    ensures q in Do(infos, w, a).servers[a.i].store <==>
              q in w.servers[a.i].store || Made(infos, w, a) == Some(q)
  {
    hide Served, Taken, Passes, FromHost, Arrived, Hear;
    OthersUnchanged(infos, w, a);
    match a
    case Serve(i) => ServeGrows(infos, w, a);
    case Finish(i) => FinishStores(w.servers[i], infos[i], q);
    case Fetch(i, tid) => HostsNeeded(infos, w, i, tid);
    case _ =>
  }

  lemma HostsNeeded(infos: seq<ServerInfo>, w: World, i: nat, tid: uint64)
    requires |w.servers| == |infos| && i < |infos| && w.servers[i].phase.Fetching?
    ensures FromHost(infos, w, i, tid).Some? ==> w.servers[i].phase.hosts != []
  {
  }

  // ---- Writes and copies are of known paths -------------------------------------------------------------

  /** What has come for a write or a read vouches for the path, as long as every answer could be parsed. */
  ghost predicate Settled(s: Server, info: ServerInfo, t: Tree)
    requires Valid(t)
  {
    s.pace.InStep? ==>
      match s.phase
      case Idle => true
      case Fetching(path, _) => Find(t, Tokens(path)).Some?
      case Awaiting(a) =>
        (a.op.OpWrite? || a.op.OpRead?) && Passes(info, a, Arrived(s)) ==> Find(t, Tokens(a.op.path)).Some?
  }

  ghost predicate AllSettled(infos: seq<ServerInfo>, w: World) {
    Connected(infos, w) && forall i :: 0 <= i < |infos| ==> Settled(w.servers[i], infos[i], w.tree)
  }

  /** Before anything has come nothing passes. */
  lemma NothingArrived(s: Server, info: ServerInfo, a: Asking)
    requires s.line.unread == []
    ensures Arrived(s).None? && !Passes(info, a, Arrived(s))
  {
    assert Read64([]).Short?;
  }

  lemma BeginSettled(s: Server, info: ServerInfo, t: Tree, a: Asking)
    requires Valid(t) && Steady(s, info) && s.phase.Idle? && Settled(s, info, t)
    ensures Settled(Begun(s, a), info, t)
  {
    hide Passes, Arrived, Slipped;
    if s.pace.InStep? {
      NothingArrived(Begun(s, a), info, a);
    }
  }

  lemma FinishSettled(s: Server, info: ServerInfo, t: Tree)
    requires Valid(t) && s.phase.Awaiting? && Hear(s.line).1.Heard? && Settled(s, info, t)
    ensures Settled(Taken(s, info), info, t)
  {
    hide Passes, Dcp.BodyOf, Decode;
  }

  /** The path of an accepted write, or of a replica list, resolves. */
  lemma RepliedResolves(t: Tree, infos: seq<ServerInfo>, i: nat, op: Op)
    requires Valid(t) && OwnersKnown(t, |infos|) && i < |infos| && Demands(t, Payload(op))
    ensures var (u, b) := Handle(t, infos, i, Payload(op));
            && Valid(u) && b.Some?
            && ((b.value.FileList? && op.OpWrite?) || b.value.ReplicaStatus? ==> Find(u, Tokens(op.path)).Some?)
  {
    RequestPath(op);
    HandleAnswers(t, infos, i, op);
    HandleFind(t, infos, i, Payload(op), Tokens(op.path));
  }

  /** An answer that passes is of the kind that was asked for. */
  lemma PassedKind(s: Server, info: ServerInfo, a: Asking, b: Dcp.Body)
    requires s.line == Line(true, Reply(a.tid, info.id, b))
    requires Dcp.Answers(Dcp.KindOf(Payload(a.op)), b) && OfDirectory(b)
    requires Passes(info, a, Arrived(s))
    ensures (a.op.OpWrite? ==> b.FileList?) && (a.op.OpRead? ==> b.ReplicaStatus?)
  {
    hide Reply, Arrived, Hear, Slipped, Dcp.Accepts;
    ReplyHeard(s, info, a, b);
  }

  lemma ServeSettled(infos: seq<ServerInfo>, w: World, a: Action)
    requires Connected(infos, w) && Enabled(infos, w, a) && a.Serve? && Settled(w.servers[a.i], infos[a.i], w.tree)
    ensures Fits(infos, Do(infos, w, a)) && Settled(Do(infos, w, a).servers[a.i], infos[a.i], Do(infos, w, a).tree)
  {
    hide Do, Handle, Demands, Tokens, Passes, Arrived, Reply, OfDirectory, Dcp.Answers, Find, Slipped;
    StepFits(infos, w, a);
    var s, w' := w.servers[a.i], Do(infos, w, a);
    assert Steady(s, infos[a.i]);
    if !Serves(infos, w, a) {
      ServeEnds(infos, w, a);
      if s.pace.InStep? {
        NothingArrived(w'.servers[a.i], infos[a.i], s.phase.asking);
      }
    } else {
      ServeIsHandle(infos, w, a);
      if s.pace.InStep? {
        var op := s.toDir[0].op;
        var b := Handle(w.tree, infos, a.i, Payload(op)).1.value;
        InStepServed(s, infos[a.i], b);
        RepliedResolves(w.tree, infos, a.i, op);
        if Passes(infos[a.i], s.toDir[0], Arrived(w'.servers[a.i])) {
          PassedKind(w'.servers[a.i], infos[a.i], s.toDir[0], b);
        }
      }
    }
  }

  lemma ActorSettled(infos: seq<ServerInfo>, w: World, a: Action)
    requires Connected(infos, w) && Enabled(infos, w, a) && Settled(w.servers[a.i], infos[a.i], w.tree)
    ensures Fits(infos, Do(infos, w, a)) && Settled(Do(infos, w, a).servers[a.i], infos[a.i], Do(infos, w, a).tree)
  {
    hide Taken, Begun, FromHost, Steady, Served, Passes, Arrived;
    StepFits(infos, w, a);
    assert Steady(w.servers[a.i], infos[a.i]);
    match a
    case Begin(i, asking) => BeginSettled(w.servers[i], infos[i], w.tree, asking);
    case Serve(i) => ServeSettled(infos, w, a);
    case Finish(i) => FinishSettled(w.servers[i], infos[i], w.tree);
    case _ =>
  }

  lemma SettledLater(s: Server, info: ServerInfo, t: Tree, u: Tree)
    requires Valid(t) && Valid(u) && StillResolves(t, u) && Settled(s, info, t)
    ensures Settled(s, info, u)
  {
    hide Passes, Arrived;
  }

  lemma StepSettled(infos: seq<ServerInfo>, w: World, a: Action)
    requires AllSettled(infos, w) && Enabled(infos, w, a)
    ensures AllSettled(infos, Do(infos, w, a))
  {
    hide Do, Settled, Connected, StillResolves, Valid, OwnersKnown;
    ActorInRange(infos, w, a);
    StepFits(infos, w, a);
    StepConnected(infos, w, a);
    OthersUnchanged(infos, w, a);
    ActorSettled(infos, w, a);
    var w' := Do(infos, w, a);
    forall j | 0 <= j < |infos| ensures Settled(w'.servers[j], infos[j], w'.tree) {
      if j != a.i {
        SettledLater(w.servers[j], infos[j], w.tree, w'.tree);
      }
    }
  }

  lemma InitiallySettled(infos: seq<ServerInfo>)
    ensures AllSettled(infos, InitialWorld(infos))
  {
    InitiallyConnected(infos);
  }

  /** In every reachable state, a server whose answers could all be parsed writes or fetches only files of paths that
      resolve. */
  lemma {:induction false} AlwaysSettled(infos: seq<ServerInfo>, run: seq<Action>)
    requires Reached(infos, run).Some?
    ensures AllSettled(infos, Reached(infos, run).value)
  {
    hide Do, Enabled, AllSettled;
    if run == [] {
      InitiallySettled(infos);
    } else {
      RunStep(infos, run);
      AlwaysSettled(infos, run[..|run| - 1]);
      StepSettled(infos, Reached(infos, run[..|run| - 1]).value, run[|run| - 1]);
    }
  }

  // ---- Which runs store known files only ------------------------------------------------------------------

  /** Stored files stay known after a step if and only if it makes no file of an unknown path. */
  lemma StepKnownIff(infos: seq<ServerInfo>, w: World, a: Action)
    requires Enabled(infos, w, a) && Valid(w.tree) && StoredIsKnown(w)
    ensures Valid(Do(infos, w, a).tree)
    ensures StoredIsKnown(Do(infos, w, a)) <==>
              (Made(infos, w, a).Some? ==> Find(w.tree, Made(infos, w, a).value).Some?)
  {
    hide Do, Made, Find, Valid;
    StepFits(infos, w, a);
    OthersUnchanged(infos, w, a);
    ActorInRange(infos, w, a);
    var w', made := Do(infos, w, a), Made(infos, w, a);
    if made.Some? {
      MadeIsStored(infos, w, a, made.value);
      MadeLeavesTree(infos, w, a);
    }
    if made.Some? ==> Find(w.tree, made.value).Some? {
      forall j, q | 0 <= j < |w'.servers| && q in w'.servers[j].store ensures Find(w'.tree, q).Some? {
        if j == a.i {
          MadeIsStored(infos, w, a, q);
        }
        assert q in w.servers[j].store || made == Some(q);
      }
    }
  }

  lemma MadeLeavesTree(infos: seq<ServerInfo>, w: World, a: Action)
    requires Enabled(infos, w, a) && Made(infos, w, a).Some?
    ensures Do(infos, w, a).tree == w.tree && !a.Serve?
  {
    hide Taken, Passes, FromHost;
  }

  /** The step finishes a creation. */
  predicate Creates(w: World, a: Action) {
    a.Finish? && a.i < |w.servers| && w.servers[a.i].phase.Awaiting? && w.servers[a.i].phase.asking.op.OpCreate?
  }

  /** What a server makes otherwise is known, as long as every answer could be parsed. */
  lemma MadeIsKnown(infos: seq<ServerInfo>, w: World, a: Action)
    requires AllSettled(infos, w) && Enabled(infos, w, a) && Made(infos, w, a).Some?
    requires w.servers[a.i].pace.InStep? && !Creates(w, a)
    ensures Find(w.tree, Made(infos, w, a).value).Some?
  {
    hide Passes, Arrived, FromHost, Hear, Steady;
    assert Settled(w.servers[a.i], infos[a.i], w.tree);
  }

  /** Stored files are known to the directory in every state that the run goes through. */
  ghost predicate KnownThroughout(infos: seq<ServerInfo>, run: seq<Action>)
    requires Reached(infos, run).Some?
  {
    AlwaysFits(infos, run);
    && StoredIsKnown(Reached(infos, run).value)
    && (run == [] || (RunStep(infos, run); KnownThroughout(infos, run[..|run| - 1])))
  }

  /** A request was served before whose target was q. */
  predicate Targeted(infos: seq<ServerInfo>, run: seq<Action>, q: seq<bytes>)
    requires Reached(infos, run).Some?
  {
    AlwaysFits(infos, run);
    RunIsRequests(infos, run);
    q == [] || LastWriter(InitialTree(), infos, Requests(infos, run), q).Some?
  }

  lemma KnownIffTargeted(infos: seq<ServerInfo>, run: seq<Action>, q: seq<bytes>)
    requires Reached(infos, run).Some?
    ensures Valid(Reached(infos, run).value.tree)
    ensures Find(Reached(infos, run).value.tree, q).Some? <==> Targeted(infos, run, q)
  {
    hide Reached;
    AlwaysFits(infos, run);
    RunIsRequests(infos, run);
    KnownIffWritten(infos, Requests(infos, run), q);
  }

  /** A creation that makes a file that the server did not store was preceded by a request with that target; so is, on a
      connection that has missed an answer, everything that makes such a file. */
  predicate Preceded(infos: seq<ServerInfo>, front: seq<Action>, a: Action)
    requires Reached(infos, front).Some? && Enabled(infos, Reached(infos, front).value, a)
  {
    var w := Reached(infos, front).value;
    var made := Made(infos, w, a);
    made.Some? && made.value !in w.servers[a.i].store && (Creates(w, a) || !w.servers[a.i].pace.InStep?) ==>
      Targeted(infos, front, made.value)
  }

  predicate PrecededRun(infos: seq<ServerInfo>, run: seq<Action>)
    requires Reached(infos, run).Some?
  {
    run == [] ||
    (RunStep(infos, run);
     PrecededRun(infos, run[..|run| - 1]) && Preceded(infos, run[..|run| - 1], run[|run| - 1]))
  }

  lemma PrecededIff(infos: seq<ServerInfo>, front: seq<Action>, a: Action)
    requires Reached(infos, front).Some? && Enabled(infos, Reached(infos, front).value, a)
    requires Valid(Reached(infos, front).value.tree) && StoredIsKnown(Reached(infos, front).value)
    ensures var w := Reached(infos, front).value;
            (Made(infos, w, a).Some? ==> Find(w.tree, Made(infos, w, a).value).Some?) <==> Preceded(infos, front, a)
  {
    hide Do, Enabled, Reached, Find, Made, Targeted, AllSettled, Creates;
    var w := Reached(infos, front).value;
    ActorInRange(infos, w, a);
    var made := Made(infos, w, a);
    if made.Some? {
      KnownIffTargeted(infos, front, made.value);
      if w.servers[a.i].pace.InStep? && !Creates(w, a) {
        AlwaysSettled(infos, front);
        MadeIsKnown(infos, w, a);
      }
    }
  }

  /** Stored files are known throughout in exactly the runs in which each finished creation of a file that the
      server did not store was preceded by a request with that target, its own (the parent existed) or another. */
  lemma {:induction false} KnownThroughoutIff(infos: seq<ServerInfo>, run: seq<Action>)
    requires Reached(infos, run).Some?
    ensures KnownThroughout(infos, run) <==> PrecededRun(infos, run)
  {
    hide Do, Enabled, StoredIsKnown, Preceded, Made;
    AlwaysFits(infos, run);
    if run == [] {
      NothingStored(infos);
    } else {
      RunStep(infos, run);
      var front, a := run[..|run| - 1], run[|run| - 1];
      AlwaysFits(infos, front);
      KnownThroughoutIff(infos, front);
      if KnownThroughout(infos, front) {
        StepKnownIff(infos, Reached(infos, front).value, a);
        PrecededIff(infos, front, a);
      }
    }
  }

  lemma NothingStored(infos: seq<ServerInfo>)
    ensures StoredIsKnown(InitialWorld(infos))
  {
  }

  /** The creation of a new path is its own target, and then known, if and only if its parent exists when it is
      served. */
  lemma ServedIsKnownIff(infos: seq<ServerInfo>, w: World, a: Action)
    requires Enabled(infos, w, a) && Serves(infos, w, a) && w.servers[a.i].toDir[0].op.OpCreate?
    requires Lookup(w.tree, w.servers[a.i].toDir[0].op.path).None?
    ensures var path := w.servers[a.i].toDir[0].op.path;
            && Valid(Do(infos, w, a).tree)
            && (Given(infos, w, a) == Some(Tokens(path)) <==> ParentExists(w.tree, path))
            && (Find(Do(infos, w, a).tree, Tokens(path)).Some? <==> ParentExists(w.tree, path))
  {
    hide Do, Handle, ParentExists, Placed, Tokens;
    ServeIsHandle(infos, w, a);
    var op := w.servers[a.i].toDir[0].op;
    RequestPath(op);
    PlacedAtPath(w.tree, op.path);
    HandleFind(w.tree, infos, a.i, Payload(op), Tokens(op.path));
  }
}
