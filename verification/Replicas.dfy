/** Runs whose creations have existing parents: every connection stays in step, owners hold their files, stored
    files are known, and a server that is told of a replica is told of another server that holds it. */
module Replicas {
  import opened Wrappers
  import opened Bytes
  import opened Messages
  import opened Codec
  import opened Sections
  import opened Paths
  import opened DirTree
  import opened DirServer
  import opened Transfer
  import opened Lines
  import opened Protocol
  import opened Owners
  import opened Known
  import Dcp

  /** The host that a replica list names holds the file and is another server. */
  ghost predicate NamesHolder(infos: seq<ServerInfo>, w: World, i: nat, q: seq<bytes>, h: blob) {
    var t := HostNamed(infos, h);
    t.Some? && t.value != i && HeldBy(infos, w, t.value, q)
  }

  /** A replica list of one host that holds the file has come. */
  ghost predicate HasReplica(infos: seq<ServerInfo>, w: World, i: nat, a: Asking, q: seq<bytes>, h: blob)
    requires i < |infos| && i < |w.servers|
  {
    && Arrived(w.servers[i]) == Some(Dcp.Message(a.tid, infos[i].id, DIRECTORY_FSID, Dcp.ReplicaStatus([h])))
    && NamesHolder(infos, w, i, q, h)
  }

  /** What is true of server i in the middle of an operation. */
  ghost predicate MidwayGood(infos: seq<ServerInfo>, w: World, i: nat)
    requires |w.servers| == |infos| && i < |infos| && Valid(w.tree)
  {
    var s := w.servers[i];
    match s.phase
    case Idle => true
    case Fetching(path, hosts) =>
      && Find(w.tree, Tokens(path)).Some? && Tokens(path) !in s.store
      && forall k :: 0 <= k < |hosts| ==> NamesHolder(infos, w, i, Tokens(path), hosts[k])
    case Awaiting(a) =>
      var q := Tokens(a.op.path);
      && (s.line.unread != [] ==> Arrived(s).Some?)
      && (a.op.OpRead? ==> q !in s.store)
      && (Passes(infos[i], a, Arrived(s)) ==>
            && (Stores(a.op) ==> Find(w.tree, q).Some?)
            && (a.op.OpRead? ==> Find(w.tree, q).Some? && exists h :: HasReplica(infos, w, i, a, q, h)))
  }

  /** The invariant of runs that create files only under existing directories. */
  ghost predicate Sound(infos: seq<ServerInfo>, w: World) {
    && Connected(infos, w) && NodesNamed(w.tree)
    && OwnersHold(infos, w) && StoredIsKnown(w)
    && forall i :: 0 <= i < |infos| ==> w.servers[i].pace.InStep? && MidwayGood(infos, w, i)
  }

  /** The creation that the directory is about to serve, if it is of a new path, has an existing parent. */
  predicate Proper(infos: seq<ServerInfo>, w: World, a: Action)
    requires Enabled(infos, w, a)
  {
    Serves(infos, w, a) && w.servers[a.i].toDir[0].op.OpCreate? ==>
      var path := w.servers[a.i].toDir[0].op.path;
      Lookup(w.tree, path).Some? || ParentExists(w.tree, path)
  }

  /** A run in which creations of new paths happen only under existing parents. */
  predicate ProperRun(infos: seq<ServerInfo>, run: seq<Action>) {
    run == [] ||
    (var front, a := run[..|run| - 1], run[|run| - 1];
     && ProperRun(infos, front) && Reached(infos, front).Some?
     && Enabled(infos, Reached(infos, front).value, a) && Proper(infos, Reached(infos, front).value, a))
  }

  /** Every step is allowed in such a run but one that serves the creation of a new path without an existing
      parent. */
  lemma ProperGoesOn(infos: seq<ServerInfo>, run: seq<Action>, w: World, a: Action)
    requires ProperRun(infos, run) && Reached(infos, run) == Some(w) && Enabled(infos, w, a)
    ensures Reached(infos, run + [a]) == Some(Do(infos, w, a))
    ensures ProperRun(infos, run + [a]) <==>
              !(&& a.Serve? && w.servers[a.i].toDir != []
                && var op := w.servers[a.i].toDir[0].op;
                   && op.OpCreate? && op.path != [] && op.user != []
                   && Lookup(w.tree, op.path).None? && !ParentExists(w.tree, op.path))
  {
    hide Do, Reached, Lookup, ParentExists;
    ReachMore(infos, run, w, a);
    assert (run + [a])[..|run|] == run;
  }

  lemma InitiallySound(infos: seq<ServerInfo>)
    ensures Sound(infos, InitialWorld(infos))
  {
    InitiallyConnected(infos);
    InitiallyHeld(infos);
    NothingStored(infos);
  }

  // ---- The directory's answers -------------------------------------------------------------------------------

  /** When every node has a name, every answer can be parsed, and that to a creation or write that succeeds comes
      when its path resolves. */
  lemma ProperAnswer(t: Tree, infos: seq<ServerInfo>, i: nat, op: Op)
    requires Valid(t) && OwnersKnown(t, |infos|) && i < |infos| && NodesNamed(t) && Demands(t, Payload(op))
    requires op.OpCreate? ==> Lookup(t, op.path).Some? || ParentExists(t, op.path)
    ensures var (u, b) := Handle(t, infos, i, Payload(op));
            && Valid(u) && NodesNamed(u) && b.Some? && Dcp.ReadableBody(b.value)
            && (b.value.FileList? && Stores(op) ==> Find(u, Tokens(op.path)).Some?)
            && (Target(t, Payload(op)).Some? ==> op.OpWrite? || ParentExists(t, op.path))
  {
    hide Tokens, Depth, Deepest, LastSlash, Attach, SetOwner;
    RequestPath(op);
    ParentNotSlash(t, op.path);
    HandleKeeps(t, infos, i, Payload(op));
    HandleNames(t, infos, i, Payload(op));
    HandleFind(t, infos, i, Payload(op), Tokens(op.path));
    if Stores(op) {
      NamedReply(t, infos, i, Payload(op));
      TargetOfSuccess(t, infos, i, Payload(op));
    } else {
      ListedAreNamed(t, infos, i, op);
    }
  }

  lemma ListedAreNamed(t: Tree, infos: seq<ServerInfo>, i: nat, op: Op)
    requires Valid(t) && OwnersKnown(t, |infos|) && i < |infos| && NodesNamed(t) && Demands(t, Payload(op))
    requires !Stores(op)
    ensures var b := Handle(t, infos, i, Payload(op)).1;
            b.Some? && Dcp.ReadableBody(b.value)
  {
  }

  /** A replica list names the owner, which holds the file and is not the server that asks. */
  lemma ReplicaNamesHolder(infos: seq<ServerInfo>, w: World, i: nat, path: text)
    requires DistinctAddresses(infos) && Fits(infos, w) && OwnersHold(infos, w) && i < |infos|
    requires !Holds(w.servers[i], infos[i], Tokens(path))
    ensures var b := Handle(w.tree, infos, i, Dcp.GetReplicas(path)).1;
            b.Some? && (b.value.ReplicaStatus? ==>
              && Find(w.tree, Tokens(path)).Some?
              && |b.value.hosts| == 1 && NamesHolder(infos, w, i, Tokens(path), b.value.hosts[0]))
  {
    hide Holds, Tokens;
    var o := OwnerAt(w.tree, Tokens(path));
    ReplicaAnswer(w.tree, infos, i, path);
    if o.Some? {
      assert HeldBy(infos, w, o.value, Tokens(path));
      OwnHost(infos, o.value);
    }
  }

  // ---- One step --------------------------------------------------------------------------------------------

  lemma HoldersKept(infos: seq<ServerInfo>, w: World, a: Action, i: nat, q: seq<bytes>, h: blob)
    requires Enabled(infos, w, a) && NamesHolder(infos, w, i, q, h)
    ensures NamesHolder(infos, Do(infos, w, a), i, q, h)
  {
    hide Do, HeldBy, Enabled;
    HoldsOn(infos, w, a, HostNamed(infos, h).value, q);
  }

  lemma OthersMidway(infos: seq<ServerInfo>, w: World, a: Action, j: nat)
    requires Enabled(infos, w, a) && j < |infos| && j != a.i && MidwayGood(infos, w, j)
    ensures Fits(infos, Do(infos, w, a)) && MidwayGood(infos, Do(infos, w, a), j)
  {
    hide Do, NamesHolder, Find, Passes, Arrived, Valid, OwnersKnown;
    ActorInRange(infos, w, a);
    StepFits(infos, w, a);
    OthersUnchanged(infos, w, a);
    forall q, h | NamesHolder(infos, w, j, q, h) ensures NamesHolder(infos, Do(infos, w, a), j, q, h) {
      HoldersKept(infos, w, a, j, q, h);
    }
    var s, w' := w.servers[j], Do(infos, w, a);
    if s.phase.Awaiting? && s.phase.asking.op.OpRead? && Passes(infos[j], s.phase.asking, Arrived(s)) {
      var q := Tokens(s.phase.asking.op.path);
      var h :| HasReplica(infos, w, j, s.phase.asking, q, h);
      assert HasReplica(infos, w', j, s.phase.asking, q, h);
    }
  }

  lemma BeginMidway(infos: seq<ServerInfo>, w: World, a: Action)
    requires Sound(infos, w) && Enabled(infos, w, a) && a.Begin?
    ensures Fits(infos, Do(infos, w, a)) && Do(infos, w, a).servers[a.i].pace.InStep?
    ensures MidwayGood(infos, Do(infos, w, a), a.i)
  {
    hide Passes, Arrived, OwnersHold, StoredIsKnown;
    assert Steady(w.servers[a.i], infos[a.i]);
    NothingArrived(Do(infos, w, a).servers[a.i], infos[a.i], a.asking);
  }

  /** A replica list was built for the read and passes, and the server goes on with its host. */
  lemma FinishFetches(s: Server, info: ServerInfo, h: blob)
    requires s.phase.Awaiting? && s.phase.asking.op.OpRead? && Hear(s.line).1.Heard?
    requires Arrived(s) == Some(Dcp.Message(s.phase.asking.tid, info.id, DIRECTORY_FSID, Dcp.ReplicaStatus([h])))
    ensures Taken(s, info).phase == Fetching(s.phase.asking.op.path, [h]) && Taken(s, info).store == s.store
  {
    hide Arrived, Dcp.BodyOf, Hear;
    FinishStores(s, info, []);
    Dcp.BodyOfBuilt(s.phase.asking.tid, info.id, DIRECTORY_FSID, Dcp.ReplicaStatus([h]));
  }

  /** The mark on the connection stays, since what is heard could be parsed. */
  lemma FinishInStep(s: Server, info: ServerInfo)
    requires Orderly(s, info) && s.pace.InStep? && s.phase.Awaiting? && Hear(s.line).1.Heard?
    requires s.line.unread != [] ==> Arrived(s).Some?
    ensures Taken(s, info).pace.InStep?
  {
    hide Arrived, Hear, IsReply, Passes;
    NothingHeard(true);
    NothingHeard(false);
    FinishStores(s, info, []);
  }

  lemma FinishMidway(infos: seq<ServerInfo>, w: World, a: Action)
    requires Sound(infos, w) && Enabled(infos, w, a) && a.Finish?
    ensures Fits(infos, Do(infos, w, a)) && Do(infos, w, a).servers[a.i].pace.InStep?
    ensures MidwayGood(infos, Do(infos, w, a), a.i)
  {
    hide Taken, Hear, Passes, Arrived, OwnersHold, StoredIsKnown, NamesHolder, Orderly;
    var s, i := w.servers[a.i], a.i;
    assert Steady(s, infos[i]) && MidwayGood(infos, w, i);
    FinishInStep(s, infos[i]);
    FinishPhase(s, infos[i]);
    if Taken(s, infos[i]).phase.Fetching? {
      var q := Tokens(s.phase.asking.op.path);
      var h :| HasReplica(infos, w, i, s.phase.asking, q, h);
      FinishFetches(s, infos[i], h);
      HoldersKept(infos, w, a, i, q, h);
    }
  }

  lemma FinishPhase(s: Server, info: ServerInfo)
    requires s.phase.Awaiting? && Hear(s.line).1.Heard?
    ensures Taken(s, info).phase.Idle? || (&& Taken(s, info).phase.Fetching? && s.phase.asking.op.OpRead?
                                           && Passes(info, s.phase.asking, Arrived(s)))
  {
    hide Passes, Arrived, Hear, Dcp.BodyOf;
    FinishStores(s, info, []);
  }

  lemma FetchMidway(infos: seq<ServerInfo>, w: World, a: Action)
    requires Sound(infos, w) && Enabled(infos, w, a) && a.Fetch?
    ensures Fits(infos, Do(infos, w, a)) && Do(infos, w, a).servers[a.i].pace.InStep?
    ensures MidwayGood(infos, Do(infos, w, a), a.i)
  {
    hide FromHost, NamesHolder, OwnersHold, StoredIsKnown;
    var s, i, w' := w.servers[a.i], a.i, Do(infos, w, a);
    assert MidwayGood(infos, w, i);
    if w'.servers[i].phase.Fetching? {
      var q, hosts := Tokens(s.phase.path), s.phase.hosts;
      forall k | 0 <= k < |hosts| - 1 ensures NamesHolder(infos, w', i, q, hosts[1..][k]) {
        HoldersKept(infos, w, a, i, q, hosts[k + 1]);
      }
    }
  }

  /** The server whose request is served: its answer has come, and means what it says. */
  lemma AnswerMidway(infos: seq<ServerInfo>, w: World, a: Action)
    requires DistinctAddresses(infos) && Sound(infos, w) && Enabled(infos, w, a) && Proper(infos, w, a)
    requires Serves(infos, w, a)
    ensures Fits(infos, Do(infos, w, a)) && NodesNamed(Do(infos, w, a).tree)
    ensures Do(infos, w, a).servers[a.i].pace.InStep? && MidwayGood(infos, Do(infos, w, a), a.i)
  {
    hide Do, Handle, Demands, Tokens, ParentExists, Passes, Arrived, Hear, Reply, OfDirectory, Dcp.Answers, Find,
         Slipped, NamesHolder, OwnersHold, StoredIsKnown, Target, Lookup, NodesNamed;
    var s, w' := w.servers[a.i], Do(infos, w, a);
    StepFits(infos, w, a);
    assert Steady(s, infos[a.i]) && MidwayGood(infos, w, a.i);
    var asking := s.toDir[0];
    var q := Tokens(asking.op.path);
    ServeIsHandle(infos, w, a);
    var b := Handle(w.tree, infos, a.i, Payload(asking.op)).1.value;
    ProperAnswer(w.tree, infos, a.i, asking.op);
    InStepServed(s, infos[a.i], b);
    var s' := w'.servers[a.i];
    ReplyHeard(s', infos[a.i], asking, b);
    if Passes(infos[a.i], asking, Arrived(s')) {
      AnswerKind(infos[a.i], asking, b);
      if asking.op.OpRead? {
        ReplicaComes(infos, w, a, b);
      }
    }
  }

  lemma AnswerKind(info: ServerInfo, a: Asking, b: Dcp.Body)
    requires Dcp.Answers(Dcp.KindOf(Payload(a.op)), b)
    requires Passes(info, a, Some(Dcp.Message(a.tid, info.id, DIRECTORY_FSID, b)))
    ensures (Stores(a.op) ==> b.FileList?) && (a.op.OpRead? ==> b.ReplicaStatus?)
  {
    hide Dcp.Accepts;
  }

  lemma ReplicaComes(infos: seq<ServerInfo>, w: World, a: Action, b: Dcp.Body)
    requires DistinctAddresses(infos) && Sound(infos, w) && Enabled(infos, w, a) && Serves(infos, w, a)
    requires w.servers[a.i].toDir[0].op.OpRead? && b.ReplicaStatus?
    requires Demands(w.tree, Payload(w.servers[a.i].toDir[0].op))
    requires Handle(w.tree, infos, a.i, Payload(w.servers[a.i].toDir[0].op)).1 == Some(b)
    requires |Do(infos, w, a).servers| == |infos| && Valid(Do(infos, w, a).tree)
    requires var asking := w.servers[a.i].toDir[0];
             Arrived(Do(infos, w, a).servers[a.i]) == Some(Dcp.Message(asking.tid, infos[a.i].id, DIRECTORY_FSID, b))
    ensures var asking := w.servers[a.i].toDir[0];
            && Find(Do(infos, w, a).tree, Tokens(asking.op.path)).Some?
            && exists h :: HasReplica(infos, Do(infos, w, a), a.i, asking, Tokens(asking.op.path), h)
  {
    hide Do, Handle, Tokens, Arrived, Hear, Find, NamesHolder, OwnersHold, StoredIsKnown, IsReply, NodesNamed, Demands;
    var asking := w.servers[a.i].toDir[0];
    var q := Tokens(asking.op.path);
    assert Steady(w.servers[a.i], infos[a.i]) && MidwayGood(infos, w, a.i);
    ReplicaNamesHolder(infos, w, a.i, asking.op.path);
    StepFits(infos, w, a);
    var h := b.hosts[0];
    assert b == Dcp.ReplicaStatus([h]);
    HoldersKept(infos, w, a, a.i, q, h);
    assert HasReplica(infos, Do(infos, w, a), a.i, asking, q, h);
  }

  lemma ServeMidway(infos: seq<ServerInfo>, w: World, a: Action)
    requires DistinctAddresses(infos) && Sound(infos, w) && Enabled(infos, w, a) && Proper(infos, w, a) && a.Serve?
    ensures Fits(infos, Do(infos, w, a)) && Do(infos, w, a).servers[a.i].pace.InStep?
    ensures MidwayGood(infos, Do(infos, w, a), a.i)
  {
    hide Do, Passes, Arrived, OwnersHold, StoredIsKnown, NodesNamed, NamesHolder;
    if Serves(infos, w, a) {
      AnswerMidway(infos, w, a);
    } else {
      var s := w.servers[a.i];
      assert Steady(s, infos[a.i]) && MidwayGood(infos, w, a.i);
      StepFits(infos, w, a);
      ServeEnds(infos, w, a);
      NothingArrived(Do(infos, w, a).servers[a.i], infos[a.i], s.phase.asking);
    }
  }

  lemma ActorMidway(infos: seq<ServerInfo>, w: World, a: Action)
    requires DistinctAddresses(infos) && Sound(infos, w) && Enabled(infos, w, a) && Proper(infos, w, a)
    ensures Fits(infos, Do(infos, w, a)) && Do(infos, w, a).servers[a.i].pace.InStep?
    ensures MidwayGood(infos, Do(infos, w, a), a.i)
  {
    hide Do, Sound, MidwayGood, Proper, Enabled;
    match a
    case Begin(_, _) => BeginMidway(infos, w, a);
    case Serve(_) => ServeMidway(infos, w, a);
    case Finish(_) => FinishMidway(infos, w, a);
    case Fetch(_, _) => FetchMidway(infos, w, a);
  }

  lemma ProperIsHarmless(infos: seq<ServerInfo>, w: World, a: Action)
    requires Sound(infos, w) && Enabled(infos, w, a) && Proper(infos, w, a)
    ensures Harmless(infos, w, a)
    ensures Valid(Do(infos, w, a).tree) && NodesNamed(Do(infos, w, a).tree)
  {
    hide Do, Handle, Demands, Target, Lookup, ParentExists, OwnersHold, StoredIsKnown, MidwayGood, InFlight, NodesNamed;
    StepFits(infos, w, a);
    OthersUnchanged(infos, w, a);
    if Serves(infos, w, a) {
      ServeIsHandle(infos, w, a);
      ProperAnswer(w.tree, infos, a.i, w.servers[a.i].toDir[0].op);
    }
  }

  lemma SoundMade(infos: seq<ServerInfo>, w: World, a: Action)
    requires Sound(infos, w) && Enabled(infos, w, a)
    ensures Made(infos, w, a).Some? ==> Find(w.tree, Made(infos, w, a).value).Some?
  {
    hide Passes, Arrived, FromHost, Hear, Steady;
    assert MidwayGood(infos, w, a.i);
  }

  lemma StepSound(infos: seq<ServerInfo>, w: World, a: Action)
    requires DistinctAddresses(infos) && Sound(infos, w) && Enabled(infos, w, a) && Proper(infos, w, a)
    ensures Sound(infos, Do(infos, w, a))
  {
    hide Do, Enabled, Harmless, Made, OwnersHold, StoredIsKnown, MidwayGood, NodesNamed, Connected, Proper;
    SoundIs(infos, w);
    StepConnected(infos, w, a);
    OthersUnchanged(infos, w, a);
    ActorInRange(infos, w, a);
    ProperIsHarmless(infos, w, a);
    StepKeepsOwnersIff(infos, w, a);
    SoundMade(infos, w, a);
    StepKnownIff(infos, w, a);
    ActorMidway(infos, w, a);
    forall j | 0 <= j < |infos|
      ensures Do(infos, w, a).servers[j].pace.InStep? && MidwayGood(infos, Do(infos, w, a), j)
    {
      if j != a.i {
        OthersMidway(infos, w, a, j);
      }
    }
  }

  lemma SoundIs(infos: seq<ServerInfo>, w: World)
    requires Sound(infos, w)
    ensures Fits(infos, w) && OwnersHold(infos, w) && StoredIsKnown(w)
  {
  }

  // ---- Every run -----------------------------------------------------------------------------------------

  /** The invariant holds in every run whose creations have existing parents; no connection gets out of step. */
  lemma {:induction false} AlwaysSound(infos: seq<ServerInfo>, run: seq<Action>)
    requires DistinctAddresses(infos) && ProperRun(infos, run)
    ensures Reached(infos, run).Some? && Sound(infos, Reached(infos, run).value)
  {
    hide Do, Enabled, Sound, Proper;
    if run == [] {
      InitiallySound(infos);
    } else {
      AlwaysSound(infos, run[..|run| - 1]);
      StepSound(infos, Reached(infos, run[..|run| - 1]).value, run[|run| - 1]);
    }
  }

  /** Safety over every run whose creations have existing parents: the owner of a path stores the file or is about
      to, every stored file is known to the directory, and whoever is told of a replica is told of another server
      that holds it. */
  lemma OwnersAlwaysHold(infos: seq<ServerInfo>, run: seq<Action>, q: seq<bytes>, i: nat)
    requires DistinctAddresses(infos) && ProperRun(infos, run) && i < |infos|
    ensures Reached(infos, run).Some?
    ensures var w := Reached(infos, run).value;
            && |w.servers| == |infos| && Valid(w.tree)
            && w.servers[i].pace.InStep?
            && (OwnerAt(w.tree, q).Some? ==> HeldBy(infos, w, OwnerAt(w.tree, q).value, q))
            && (q in w.servers[i].store ==> Find(w.tree, q).Some?)
            && (w.servers[i].phase.Fetching? ==>
                  forall k :: 0 <= k < |w.servers[i].phase.hosts| ==>
                    NamesHolder(infos, w, i, Tokens(w.servers[i].phase.path), w.servers[i].phase.hosts[k]))
  {
    hide NamesHolder, HeldBy, Find, Passes, Arrived, Steady, ProperRun, Reached;
    AlwaysSound(infos, run);
    assert MidwayGood(infos, Reached(infos, run).value, i);
  }

  // ---- File contents -----------------------------------------------------------------------------------------

  /** A write that the directory has accepted leaves the client's data, followed by any longer old tail, in the
      local file, and a read at the same server is then served from that file without asking anybody. */
  lemma WriteThenRead(infos: seq<ServerInfo>, w: World, i: nat, tid: uint64)
    requires Fits(infos, w) && i < |infos|
    requires w.servers[i].phase.Awaiting? && w.servers[i].phase.asking.op.OpWrite?
    requires InFlight(w.servers[i], infos[i], Tokens(w.servers[i].phase.asking.op.path))
    ensures Enabled(infos, w, Finish(i))
    ensures var op := w.servers[i].phase.asking.op;
            var q, w' := Tokens(op.path), Do(infos, w, Finish(i));
            && Contents(w'.servers[i].store, q) == Overlay(op.data, Contents(w.servers[i].store, q))
            && Enabled(infos, w', Begin(i, Asking(tid, OpRead(op.path))))
            && Do(infos, w', Begin(i, Asking(tid, OpRead(op.path)))) == w'
  {
    hide Passes, Arrived, Hear, Dcp.BodyOf;
    var q := Tokens(w.servers[i].phase.asking.op.path);
    FinishHeard(w.servers[i], infos[i], q);
    FinishStores(w.servers[i], infos[i], q);
  }

  /** A fetch succeeds exactly when the host it goes to stores the file by then, and makes an equal copy. */
  lemma FetchCopies(infos: seq<ServerInfo>, w: World, i: nat, tid: uint64)
    requires Sound(infos, w) && i < |infos| && w.servers[i].phase.Fetching? && w.servers[i].phase.hosts != []
    ensures Enabled(infos, w, Fetch(i, tid))
    ensures var s := w.servers[i];
            var q, t := Tokens(s.phase.path), HostNamed(infos, s.phase.hosts[0]);
            var s' := Do(infos, w, Fetch(i, tid)).servers[i];
            && t.Some? && t.value != i
            && (q in s'.store <==> q in w.servers[t.value].store)
            && (q in s'.store ==> s'.store[q] == w.servers[t.value].store[q])
  {
    hide FctpGet, OwnersHold, StoredIsKnown, Steady, HeldBy;
    var s := w.servers[i];
    assert MidwayGood(infos, w, i);
    assert NamesHolder(infos, w, i, Tokens(s.phase.path), s.phase.hosts[0]);
    var t := HostNamed(infos, s.phase.hosts[0]).value;
    FctpDeliversFile(w.servers[t].store, tid, infos[i].id, infos[t].id, DIRECTORY_FSID, s.phase.path);
  }
}
