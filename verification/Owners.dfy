/** Owners and their files over every run: whether the server that the directory calls the owner of a path holds a file
    of it. */
module Owners {
  import opened Wrappers
  import opened Bytes
  import opened Messages
  import opened Codec
  import opened Sections
  import opened Paths
  import opened DirTree
  import opened DirServer
  import opened Transfer
  import opened Lines
  import opened Protocol
  import Dcp

  predicate Stores(op: Op) {
    op.OpCreate? || op.OpWrite?
  }

  /** An answer has come on which the server will make or write its file of q. */
  predicate InFlight(s: Server, info: ServerInfo, q: seq<bytes>) {
    && s.phase.Awaiting? && Stores(s.phase.asking.op) && Tokens(s.phase.asking.op.path) == q
    && Passes(info, s.phase.asking, Arrived(s))
  }

  predicate Holds(s: Server, info: ServerInfo, q: seq<bytes>) {
    q in s.store || InFlight(s, info, q)
  }

  ghost predicate HeldBy(infos: seq<ServerInfo>, w: World, o: nat, q: seq<bytes>) {
    o < |infos| && o < |w.servers| && Holds(w.servers[o], infos[o], q)
  }

  /** An owned path is held by its owner. */
  ghost predicate OwnersHold(infos: seq<ServerInfo>, w: World)
    requires Valid(w.tree)
  {
    forall q :: OwnerAt(w.tree, q).Some? ==> HeldBy(infos, w, OwnerAt(w.tree, q).value, q)
  }

  // ---- What is held stays so ----------------------------------------------------------------------------

  /** A step of the server stores what was in flight and nothing else. */
  lemma FinishStores(s: Server, info: ServerInfo, q: seq<bytes>)
    requires s.phase.Awaiting? && Hear(s.line).1.Heard?
    ensures Hear(s.line).1.reply == Arrived(s)
    ensures q in Taken(s, info).store <==> q in s.store || InFlight(s, info, q)
  {
    hide Decode, Passes, Dcp.BodyOf;
  }

  lemma FinishHeard(s: Server, info: ServerInfo, q: seq<bytes>)
    requires InFlight(s, info, q)
    ensures Hear(s.line).1.Heard?
  {
    hide Decode;
  }

  /** More bytes on the connection do not change what has come before them. */
  lemma ArrivedStays(s: Server, s': Server)
    requires s.line.unread <= s'.line.unread && Arrived(s).Some?
    ensures Arrived(s') == Arrived(s)
  {
    hide Decode;
    var x := s'.line.unread[|s.line.unread|..];
    assert s'.line.unread == s.line.unread + x;
    DecodeGrows(DCP, s.line.unread, x);
  }

  lemma ServeGrows(infos: seq<ServerInfo>, w: World, a: Action)
    requires Enabled(infos, w, a) && a.Serve?
    ensures var s := w.servers[a.i];
            && |Do(infos, w, a).servers| == |infos|
            && var s' := Do(infos, w, a).servers[a.i];
            s'.phase == s.phase && s'.store == s.store && s'.pace == s.pace && s.line.unread <= s'.line.unread
  {
    hide Post;
    var s := w.servers[a.i];
    PostKeeps(w.tree, infos, a.i, s.line, RequestMessage(infos[a.i], s.toDir[0]));
  }

  /** In every state and for every step, a server that holds a file, stored or in flight, goes on holding it. */
  lemma HoldsOn(infos: seq<ServerInfo>, w: World, a: Action, o: nat, q: seq<bytes>)
    requires Enabled(infos, w, a) && HeldBy(infos, w, o, q)
    ensures HeldBy(infos, Do(infos, w, a), o, q)
  {
    hide Served, Passes, FromHost, Arrived, Dcp.BodyOf, Hear;
    OthersUnchanged(infos, w, a);
    if o == a.i {
      var s := w.servers[a.i];
      match a
      case Serve(i) =>
        ServeGrows(infos, w, a);
        if InFlight(s, infos[i], q) {
          SomeArrived(infos[i], s);
          ArrivedStays(s, Do(infos, w, a).servers[i]);
        }
      case Finish(i) => FinishStores(s, infos[i], q);
      case _ =>
    }
  }

  lemma SomeArrived(info: ServerInfo, s: Server)
    requires s.phase.Awaiting? && Passes(info, s.phase.asking, Arrived(s))
    ensures Arrived(s).Some?
  {
    hide Arrived;
  }

  // ---- What a request gives to its server ---------------------------------------------------------------

  /** The component list whose owner the step sets, if any. */
  function Given(infos: seq<ServerInfo>, w: World, a: Action): Option<seq<bytes>>
    requires Enabled(infos, w, a)
  {
    if Serves(infos, w, a) then Target(w.tree, Payload(w.servers[a.i].toDir[0].op)) else None
  }

  lemma OwnerAfter(infos: seq<ServerInfo>, w: World, a: Action, q: seq<bytes>)
    requires Enabled(infos, w, a)
    ensures Valid(Do(infos, w, a).tree)
    ensures OwnerAt(Do(infos, w, a).tree, q) ==
              if Given(infos, w, a) == Some(q) then Some(a.i) else OwnerAt(w.tree, q)
  {
    hide Do, Handle, Target, OwnerAt;
    StepFits(infos, w, a);
    OthersUnchanged(infos, w, a);
    if Serves(infos, w, a) {
      ServeIsHandle(infos, w, a);
      HandleOwner(w.tree, infos, a.i, Payload(w.servers[a.i].toDir[0].op), q);
    }
  }

  /** In every state, owners still hold their files after a step if and only if the server holds what it was given. */
  lemma OwnersHoldIff(infos: seq<ServerInfo>, w: World, a: Action)
    requires Enabled(infos, w, a) && OwnersHold(infos, w)
    ensures Valid(Do(infos, w, a).tree)
    ensures OwnersHold(infos, Do(infos, w, a)) <==>
              (Given(infos, w, a).Some? ==> HeldBy(infos, Do(infos, w, a), a.i, Given(infos, w, a).value))
  {
    hide Do, Enabled, OwnerAt, Given, Holds;
    ActorInRange(infos, w, a);
    StepFits(infos, w, a);
    var w', given := Do(infos, w, a), Given(infos, w, a);
    if given.Some? {
      OwnerAfter(infos, w, a, given.value);
    }
    if given.Some? ==> HeldBy(infos, w', a.i, given.value) {
      forall q | OwnerAt(w'.tree, q).Some? ensures HeldBy(infos, w', OwnerAt(w'.tree, q).value, q) {
        OwnerAfter(infos, w, a, q);
        if given != Some(q) {
          HoldsOn(infos, w, a, OwnerAt(w.tree, q).value, q);
        }
      }
    }
  }

  /** The server whose request is served in step. */
  lemma InStepServed(s: Server, info: ServerInfo, b: Dcp.Body)
    requires Orderly(s, info) && s.toDir != []
    ensures s.phase == Awaiting(s.toDir[0]) && s.line == IN_STEP
    ensures Replied(s, info, b).line == Line(true, Reply(s.toDir[0].tid, info.id, b))
  {
    hide Reply;
    assert [] + Reply(s.toDir[0].tid, info.id, b) == Reply(s.toDir[0].tid, info.id, b);
  }

  /** What the directory answers to a creation or write is in flight when it is a list of one named file. */
  lemma FileListArrives(s: Server, info: ServerInfo, fi: FileInfo)
    requires Orderly(s, info) && s.toDir != [] && Stores(s.toDir[0].op) && Named(fi)
    requires OfDirectory(Dcp.FileList([fi]))
    ensures InFlight(Replied(s, info, Dcp.FileList([fi])), info, Tokens(s.toDir[0].op.path))
  {
    hide Tokens, Arrived, Hear, Slipped, Reply, Dcp.Accepts, Dcp.CheckResponse, OfDirectory;
    var a, b := s.toDir[0], Dcp.FileList([fi]);
    InStepServed(s, info, b);
    ReplyHeard(Replied(s, info, b), info, a, b);
    Dcp.ReplyAccepted(a.tid, info.id, DIRECTORY_FSID, Dcp.KindOf(Payload(a.op)), b);
  }

  lemma GivenIsListed(t: Tree, infos: seq<ServerInfo>, i: nat, op: Op)
    requires Valid(t) && OwnersKnown(t, |infos|) && i < |infos| && RootNamed(t) && Demands(t, Payload(op))
    requires Target(t, Payload(op)).Some?
    ensures Stores(op) && (op.OpCreate? ==> Lookup(t, op.path).None? && SLASH in op.path)
    ensures op.OpWrite? ==> Target(t, Payload(op)).value == Tokens(op.path)
    ensures op.OpCreate? ==> (Target(t, Payload(op)).value == Tokens(op.path) <==> ParentExists(t, op.path))
    ensures var b := Handle(t, infos, i, Payload(op)).1;
            && b.Some? && b.value.FileList? && |b.value.files| == 1 && b.value == Dcp.FileList([b.value.files[0]])
            && (op.OpWrite? || ParentExists(t, op.path) ==> Named(b.value.files[0]))
  {
    hide Tokens, ParentExists, AddNode, SetOwner, LastSlash, Placed;
    RequestPath(op);
    NamedReply(t, infos, i, Payload(op));
    if op.OpCreate? {
      PlacedAtPath(t, op.path);
      ParentNotSlash(t, op.path);
    }
  }

  /** When all answers so far could be parsed, the server holds what it is given exactly if it asked to write it, or
      made it in an existing directory, or happens to store a file of that place. */
  lemma GivenIsHeldIff(infos: seq<ServerInfo>, w: World, a: Action)
    requires Connected(infos, w) && Enabled(infos, w, a) && w.servers[a.i].pace.InStep? && Given(infos, w, a).Some?
    ensures var s, place := w.servers[a.i], Given(infos, w, a).value;
            && s.toDir != []
            && (HeldBy(infos, Do(infos, w, a), a.i, place) <==>
                  place in s.store || s.toDir[0].op.OpWrite? || ParentExists(w.tree, s.toDir[0].op.path))
  {
    hide Do, Handle, Demands, Target, Tokens, ParentExists, Passes, Arrived, Reply, OfDirectory, Dcp.Answers, Lookup;
    var s, place := w.servers[a.i], Given(infos, w, a).value;
    assert Steady(s, infos[a.i]);
    var op := s.toDir[0].op;
    ServeIsHandle(infos, w, a);
    GivenIsListed(w.tree, infos, a.i, op);
    var b := Handle(w.tree, infos, a.i, Payload(op)).1.value;
    InStepServed(s, infos[a.i], b);
    if op.OpWrite? || ParentExists(w.tree, op.path) {
      FileListArrives(s, infos[a.i], b.files[0]);
    }
  }

  /** Behind an answer that could not be parsed nothing is in flight. */
  lemma StumbledInFlight(s: Server, info: ServerInfo, q: seq<bytes>)
    requires s.pace.Stumbled? && Steady(s, info) && info.id != 0
    ensures !InFlight(s, info, q)
  {
    hide Slipped, Tokens, Dcp.Accepts, Dcp.CheckResponse;
    if s.phase.Awaiting? {
      var a := s.phase.asking;
      SlippedIsRefused(s.line.unread, a.tid, info.id, DIRECTORY_FSID, Dcp.KindOf(Payload(a.op)));
    }
  }

  /** When the last answer was the first that could not be parsed, the server holds what it is given exactly if it
      happens to store a file of that place. */
  lemma StumbledIsHeldIff(infos: seq<ServerInfo>, w: World, a: Action)
    requires Connected(infos, w) && Enabled(infos, w, a) && w.servers[a.i].pace.Stumbled? && infos[a.i].id != 0
    requires Given(infos, w, a).Some?
    ensures HeldBy(infos, Do(infos, w, a), a.i, Given(infos, w, a).value) <==>
              Given(infos, w, a).value in w.servers[a.i].store
  {
    hide Do, Target, Steady;
    ServeGrows(infos, w, a);
    StepConnected(infos, w, a);
    StumbledInFlight(Do(infos, w, a).servers[a.i], infos[a.i], Given(infos, w, a).value);
  }

  // ---- Every run ----------------------------------------------------------------------------------------------

  /** The step gives the server nothing that it does not store, but for what it asked to write or made in an existing
      directory; on a connection that has missed an answer, unless what comes next is taken for the answer. */
  predicate Harmless(infos: seq<ServerInfo>, w: World, a: Action)
    requires Enabled(infos, w, a)
  {
    Given(infos, w, a).Some? ==>
      var s, place := w.servers[a.i], Given(infos, w, a).value;
      || place in s.store
      || (if s.pace.InStep? then s.toDir[0].op.OpWrite? || ParentExists(w.tree, s.toDir[0].op.path)
          else InFlight(Served(infos, w, a.i).servers[a.i], infos[a.i], place))
  }

  lemma OutOfStepHeld(infos: seq<ServerInfo>, w: World, a: Action)
    requires Enabled(infos, w, a) && !w.servers[a.i].pace.InStep? && Given(infos, w, a).Some?
    ensures HeldBy(infos, Do(infos, w, a), a.i, Given(infos, w, a).value) <==> Harmless(infos, w, a)
  {
    hide Target, InFlight;
    ServeGrows(infos, w, a);
  }

  /** A step keeps owners holding what they own if and only if it is harmless. */
  lemma StepKeepsOwnersIff(infos: seq<ServerInfo>, w: World, a: Action)
    requires Connected(infos, w) && OwnersHold(infos, w) && Enabled(infos, w, a)
    ensures Valid(Do(infos, w, a).tree)
    ensures OwnersHold(infos, Do(infos, w, a)) <==> Harmless(infos, w, a)
  {
    hide Do, OwnersHold, HeldBy, Given, Steady, ParentExists, InFlight, Served, Holds;
    OwnersHoldIff(infos, w, a);
    if Given(infos, w, a).Some? {
      if w.servers[a.i].pace.InStep? {
        GivenIsHeldIff(infos, w, a);
      } else {
        OutOfStepHeld(infos, w, a);
      }
    }
  }

  /** Owners hold what they own in every state that the run goes through. */
  ghost predicate HeldThroughout(infos: seq<ServerInfo>, run: seq<Action>)
    requires Reached(infos, run).Some?
  {
    AlwaysFits(infos, run);
    && OwnersHold(infos, Reached(infos, run).value)
    && (run == [] || (RunStep(infos, run); HeldThroughout(infos, run[..|run| - 1])))
  }

  /** Every step of the run is harmless. */
  predicate HarmlessRun(infos: seq<ServerInfo>, run: seq<Action>)
    requires Reached(infos, run).Some?
  {
    run == [] ||
    (RunStep(infos, run);
     var front := run[..|run| - 1];
     HarmlessRun(infos, front) && Harmless(infos, Reached(infos, front).value, run[|run| - 1]))
  }

  lemma InitiallyHeld(infos: seq<ServerInfo>)
    ensures OwnersHold(infos, InitialWorld(infos))
  {
    hide HeldBy;
    forall q ensures OwnerAt(InitialTree(), q).None? {
      EmptyDirectory(q);
    }
  }

  /** In exactly the runs whose steps are all harmless, owners hold what they own throughout. */
  lemma {:induction false} HeldThroughoutIff(infos: seq<ServerInfo>, run: seq<Action>)
    requires Reached(infos, run).Some?
    ensures HeldThroughout(infos, run) <==> HarmlessRun(infos, run)
  {
    hide Do, Enabled, OwnersHold, Harmless, Connected;
    AlwaysFits(infos, run);
    if run == [] {
      InitiallyHeld(infos);
    } else {
      RunStep(infos, run);
      var front, a := run[..|run| - 1], run[|run| - 1];
      HeldThroughoutIff(infos, front);
      if HeldThroughout(infos, front) {
        AlwaysConnected(infos, front);
        StepKeepsOwnersIff(infos, Reached(infos, front).value, a);
      }
    }
  }
}
