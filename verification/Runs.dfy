/** Two concrete runs from nothing: one after which the check refuses an answer for its transaction, and one after which
    an owner does not hold what it owns and a file is stored that the directory does not know. */
module Runs {
  import opened Wrappers
  import opened Bytes
  import opened Messages
  import opened Codec
  import opened Sections
  import opened Paths
  import opened DirTree
  import opened DirServer
  import opened Transfer
  import opened Lines
  import opened Protocol
  import opened Owners
  import opened Known
  import EndToEnd
  import Dcp

  // ---- A first creation -------------------------------------------------------------------------------------

  function AwaitsWith(a: Asking, line: Line): Server {
    Server(Awaiting(a), map[], [], line, InStep)
  }

  lemma FirstBegun(infos: seq<ServerInfo>, a: Asking) returns (w: World)
    requires infos != [] && !a.op.OpRead?
    ensures Reached(infos, [Begin(0, a)]) == Some(w)
    ensures w.tree == InitialTree() && |w.servers| == |infos| && Fits(infos, w)
    ensures w.servers[0] == Server(Awaiting(a), map[], [a], IN_STEP, InStep)
    ensures forall i :: 0 <= i < |infos| ==> w.servers[i].store == map[]
  {
    hide Reached;
    NoSteps(infos);
    ReachMore(infos, [], InitialWorld(infos), Begin(0, a));
    assert [] + [Begin(0, a)] == [Begin(0, a)];
    w := Do(infos, InitialWorld(infos), Begin(0, a));
    assert [] + [a] == [a];
  }

  /** The first server's request in a new directory, served. */
  lemma FirstServed(infos: seq<ServerInfo>, a: Asking) returns (w: World)
    requires infos != [] && !a.op.OpRead?
    requires Dcp.ReadableBody(Payload(a.op)) && Demands(InitialTree(), Payload(a.op))
    ensures Reached(infos, [Begin(0, a), Serve(0)]) == Some(w)
    ensures var (t, b) := Handle(InitialTree(), infos, 0, Payload(a.op));
            && w.tree == t && Fits(infos, w) && b.Some?
            && Dcp.Answers(Dcp.KindOf(Payload(a.op)), b.value) && OfDirectory(b.value)
            && w.servers[0] == AwaitsWith(a, Line(true, Reply(a.tid, infos[0].id, b.value)))
    ensures forall i :: 0 <= i < |infos| ==> w.servers[i].store == map[]
  {
    hide Reached, Do, Handle, Demands, Reply, OfDirectory, Dcp.Answers, Valid, OwnersKnown, Dcp.ReadableBody;
    var w1 := FirstBegun(infos, a);
    ServeIsHandle(infos, w1, Serve(0));
    StepFits(infos, w1, Serve(0));
    ReachMore(infos, [Begin(0, a)], w1, Serve(0));
    assert [Begin(0, a)] + [Serve(0)] == [Begin(0, a), Serve(0)];
    w := Do(infos, w1, Serve(0));
    assert [a][1..] == [];
    var b := Handle(InitialTree(), infos, 0, Payload(a.op)).1.value;
    assert [] + Reply(a.tid, infos[0].id, b) == Reply(a.tid, infos[0].id, b);
  }

  // ---- Out of step --------------------------------------------------------------------------------------------

  lemma {:induction false} ZeroBytes(w: nat)
    ensures BigEndian(0, w) == seq(w, _ => 0)
  {
    if w > 0 {
      ZeroBytes(w - 1);
    }
  }

  /** A small number begins with zero bytes. */
  lemma SmallNumber(n: nat)
    requires n < 0x1_0000
    ensures BigEndian(n, 8) == BigEndian(0, 2) + (BigEndian(0, 2) + (BigEndian(0, 2) + BigEndian(n, 2)))
  {
    hide BigEndian;
    Pow256Widths();
    var z, x := BigEndian(0, 6), BigEndian(n, 2);
    ValueOfBigEndian(0, 6);
    ValueOfBigEndian(n, 2);
    ValueOfConcat(z, x);
    BigEndianOfValue(z + x);
    ZeroBytes(2);
    ZeroBytes(6);
    assert z == BigEndian(0, 2) + BigEndian(0, 2) + BigEndian(0, 2);
  }

  /** What the server takes for a message when an answer with a small transaction id comes behind the rest of an answer
      whose only file has no name. */
  function Garbled(): (m: Msg)
    ensures Headed(DCP, m) && Open(m)
  {
    Msg(REMNANT_TID, [0, 0], 0, [])
  }

  lemma Regroup(r: bytes, e: bytes, f: bytes, z: bytes)
    ensures (r + (e + f)) + (z + (z + (z + z))) == r + ((e + (f + (z + z))) + (z + z))
  {
    var x := z + (z + (z + z));
    Associate(r, e + f, x);
    Associate(e, f, x);
    Associate(e, f + (z + z), z + z);
    Associate(f, z + z, z + z);
    Associate(z, z, z + z);
  }

  lemma ZeroParts()
    ensures BigEndian(0, 8) == BigEndian(0, 4) + (BigEndian(0, 2) + BigEndian(0, 2))
  {
    ZeroBytes(2);
    ZeroBytes(4);
    ZeroBytes(8);
  }

  lemma GarbledParts()
    ensures Encode(Seal(Garbled())) ==
              BigEndian(REMNANT_TID, 8) + ((BigEndian(0, 8) + BigEndian(0, 8)) + (BigEndian(0, 2) + BigEndian(0, 2)))
  {
    hide BigEndian;
    EndMarkerBytes();
    assert Garbled().sections + [NoNext] == [NoNext];
    assert [0, 0][1..] == [0];
    assert EncodeIds([0, 0]) == BigEndian(0, 8) + (BigEndian(0, 8) + []);
    assert BigEndian(0, 8) + [] == BigEndian(0, 8);
  }

  lemma GarbledBytes()
    ensures var z := BigEndian(0, 2);
            Encode(Seal(Garbled())) == Remnant() + (z + (z + (z + z)))
  {
    hide Remnant, BigEndian, Encode, Value;
    RemnantWords();
    GarbledParts();
    ZeroParts();
    Regroup(BigEndian(REMNANT_TID, 8), BigEndian(0, 8), BigEndian(0, 4), BigEndian(0, 2));
  }

  lemma UnreadNameless()
    ensures Unread(Dcp.SectionsOf(Dcp.FileList([NodeInfo([])]))) == Remnant() + BigEndian(0, 2)
  {
    hide Remnant, LeftOf, BigEndian;
    var ss := Dcp.SectionsOf(Dcp.FileList([NodeInfo([])]));
    EndMarkerBytes();
    NodeInfoReadable([]);
    assert ss == [Integer(1), File(NodeInfo([]))];
    assert ss[1..] == [File(NodeInfo([]))];
    assert ss[1..][1..] == [] && [] + [NoNext] == [NoNext];
    RemnantIs();
  }

  lemma RemnantIs()
    ensures Remnant() == LeftOf(File(NodeInfo([])))
  {
  }

  lemma GarbledHeard(tid: uint64, id: uint64, b: Dcp.Body)
    requires tid < 0x1_0000
    ensures var bs := Unread(Dcp.SectionsOf(Dcp.FileList([NodeInfo([])]))) + Reply(tid, id, b);
            Parsed(DCP, bs) == Some(Garbled())
  {
    hide Remnant, BigEndian, Unread, EncodeSections, EncodeIds, Decode;
    var m := Dcp.Message(tid, id, DIRECTORY_FSID, b);
    var z := BigEndian(0, 2);
    var rest := EncodeIds(m.ids) + (BigEndian(m.kind, 2) + EncodeSections(m.sections + [NoNext]));
    UnreadNameless();
    GarbledBytes();
    SmallNumber(tid);
    var x := BigEndian(tid, 2) + rest;
    assert Reply(tid, id, b) == BigEndian(tid, 8) + rest;
    assert (Remnant() + z) + Reply(tid, id, b) == (Remnant() + (z + (z + (z + z)))) + x;
    RoundTrip(DCP, Garbled(), x);
  }

  /** Creating /x/. */
  function Slashed(tid: uint64, user: blob): Asking {
    Asking(tid, OpCreate([SLASH, 120, SLASH], user))
  }

  function ListRoot(tid: uint64): Asking {
    Asking(tid, OpList(1, [SLASH]))
  }

  lemma SlashedHandled(infos: seq<ServerInfo>, tid: uint64, user: blob)
    requires infos != [] && user != []
    ensures var op := Slashed(tid, user).op;
            && Dcp.ReadableBody(Payload(op)) && Demands(InitialTree(), Payload(op))
            && Handle(InitialTree(), infos, 0, Payload(op)) ==
                 (OneEntry([], 0), Some(Dcp.FileList([NodeInfo([])])))
  {
    hide Tokens, LastSlash;
    var path: text := [SLASH, 120, SLASH];
    EndToEnd.TrailingSlashTokens();
    EndToEnd.TrailingSlashTree(0);
    CStringOfText(path);
  }

  lemma RootListed(infos: seq<ServerInfo>, tid: uint64)
    requires infos != []
    ensures var op, t := ListRoot(tid).op, OneEntry([], 0);
            && OwnersKnown(t, |infos|) && Dcp.ReadableBody(Payload(op)) && Demands(t, Payload(op))
  {
    hide Tokens;
    EndToEnd.TrailingSlashTokens();
    CStringOfText([SLASH]);
  }

  /** The creation is finished: its answer could not be parsed, and the rest of it stays on the connection. */
  lemma SlashedFinished(infos: seq<ServerInfo>, tid: uint64, user: blob) returns (w: World)
    requires infos != [] && user != []
    ensures Reached(infos, [Begin(0, Slashed(tid, user)), Serve(0), Finish(0)]) == Some(w)
    ensures Fits(infos, w) && w.tree == OneEntry([], 0)
    ensures w.servers[0] == Server(Idle, map[], [],
                                   Line(true, Unread(Dcp.SectionsOf(Dcp.FileList([NodeInfo([])])))), Stumbled)
  {
    hide Reached, Do, Handle, Reply, Unread, Dcp.SectionsOf, Valid, OwnersKnown, Passes, Encode, Decode, Demands;
    var a, b := Slashed(tid, user), Dcp.FileList([NodeInfo([])]);
    SlashedHandled(infos, tid, user);
    var w2 := FirstServed(infos, a);
    var s := w2.servers[0];
    RestHeard(tid, infos[0].id);
    UnheardFinishes(s, infos[0]);
    FinishPossible(infos, w2);
    StepFits(infos, w2, Finish(0));
    ReachMore(infos, [Begin(0, a), Serve(0)], w2, Finish(0));
    assert [Begin(0, a), Serve(0)] + [Finish(0)] == [Begin(0, a), Serve(0), Finish(0)];
    w := Do(infos, w2, Finish(0));
  }

  lemma RestHeard(tid: uint64, id: uint64)
    ensures var b := Dcp.FileList([NodeInfo([])]);
            Hear(Line(true, Reply(tid, id, b))) == (Line(true, Unread(Dcp.SectionsOf(b))), Heard(None))
  {
    hide Encode, Hear, Unread, AllReadable, Readable, Dcp.SectionsOf;
    var b := Dcp.FileList([NodeInfo([])]);
    AnswerHeard(Dcp.Message(tid, id, DIRECTORY_FSID, b));
    MessageSections(tid, id, b);
    assert !Named(b.files[0]);
    Dcp.BodyReadable(b);
  }

  lemma UnheardFinishes(s: Server, info: ServerInfo)
    requires s.phase.Awaiting? && s.pace.InStep? && Hear(s.line).1 == Heard(None)
    ensures Taken(s, info) == s.(phase := Idle, line := Hear(s.line).0, pace := Stumbled)
  {
    hide Hear;
  }

  lemma FinishPossible(infos: seq<ServerInfo>, w: World)
    requires Fits(infos, w) && infos != [] && w.servers[0].phase.Awaiting? && Hear(w.servers[0].line).1.Heard?
    ensures Enabled(infos, w, Finish(0))
    ensures Do(infos, w, Finish(0)) == w.(servers := w.servers[0 := Taken(w.servers[0], infos[0])])
  {
    hide Hear, Taken;
  }

  /** A concrete run, from nothing: after the creation of /x/, the answer to the next listing is read as something else,
      and refused for its transaction id. */
  lemma OutOfStepRun(infos: seq<ServerInfo>, tid: uint64, user: blob, next: uint64)
    requires infos != [] && user != [] && 0 < next < 0x1_0000
    ensures var w := Reached(infos, [Begin(0, Slashed(tid, user)), Serve(0), Finish(0),
                                     Begin(0, ListRoot(next)), Serve(0)]);
            && w.Some? && |w.value.servers| == |infos|
            && var s := w.value.servers[0];
               && s.phase == Awaiting(ListRoot(next)) && s.pace.Stumbled? && Arrived(s) == Some(Garbled())
               && Checked(infos[0], ListRoot(next), Arrived(s)) == -2
  {
    hide Reached, Do, Handle, Reply, Unread, Dcp.SectionsOf, Valid, OwnersKnown, Parsed, Demands, Tokens;
    var a, l := Slashed(tid, user), ListRoot(next);
    var w3 := SlashedFinished(infos, tid, user);
    var begun := [Begin(0, a), Serve(0), Finish(0)];
    ListBegins(infos, w3, l);
    var w4 := Do(infos, w3, Begin(0, l));
    ReachMore(infos, begun, w3, Begin(0, l));
    assert begun + [Begin(0, l)] == [Begin(0, a), Serve(0), Finish(0), Begin(0, l)];
    RootListed(infos, next);
    StepFits(infos, w3, Begin(0, l));
    ServeIsHandle(infos, w4, Serve(0));
    ReachMore(infos, begun + [Begin(0, l)], w4, Serve(0));
    assert begun + [Begin(0, l)] + [Serve(0)] == [Begin(0, a), Serve(0), Finish(0), Begin(0, l), Serve(0)];
    var b := Handle(w4.tree, infos, 0, Payload(l.op)).1.value;
    GarbledHeard(next, infos[0].id, b);
    RemnantWords();
  }

  lemma ListBegins(infos: seq<ServerInfo>, w: World, l: Asking)
    requires Fits(infos, w) && infos != [] && w.servers[0].phase.Idle? && w.servers[0].toDir == [] && l.op.OpList?
    ensures Enabled(infos, w, Begin(0, l))
    ensures Do(infos, w, Begin(0, l)) ==
              w.(servers := w.servers[0 := w.servers[0].(phase := Awaiting(l), toDir := [l])])
  {
    assert [] + [l] == [l];
  }

  // ---- A missing parent ---------------------------------------------------------------------------------------

  /** Creating /a/b. */
  function Misplaced(tid: uint64, user: blob): Asking {
    Asking(tid, OpCreate([SLASH, 97, SLASH, 98], user))
  }

  lemma MisplacedPath(t: Tree)
    requires Valid(t) && Kid(t, 0, [97]).None?
    ensures var path: text := [SLASH, 97, SLASH, 98];
            && Lookup(t, path).None? && !ParentExists(t, path) && Placed(t, path) == [[98]]
  {
    var path: text := [SLASH, 97, SLASH, 98];
    TwoLevelPath();
    var ts := Tokens(path);
    assert ts[0] == [97] && ts[..1] == [[97]] && ts[..0] == [];
    assert Walk(t, 0, ts).None? && Walk(t, 0, ts[..1]).None? && Depth(t, 0, ts) == 0;
    assert Placed(t, path) == [] + [[98]] == [[98]];
  }

  lemma MisplacedTarget(tid: uint64, user: blob)
    ensures var t, op := InitialTree(), Misplaced(tid, user).op;
            && Demands(t, Payload(op)) && Lookup(t, op.path).None? && Lookup(OneEntry([98], 0), op.path).None?
            && !ParentExists(t, op.path) && Target(t, Payload(op)) == Some([[98]])
  {
    hide Lookup, ParentExists, Tokens, Placed, Attach, LastSlash;
    var t, op := InitialTree(), Misplaced(tid, user).op;
    MisplacedPath(t);
    MisplacedPath(OneEntry([98], 0));
    RequestPath(op);
    EmptyDirectory([[98]]);
  }

  lemma MisplacedHandled(infos: seq<ServerInfo>, tid: uint64, user: blob)
    requires infos != [] && user != []
    ensures var t, op := InitialTree(), Misplaced(tid, user).op;
            && Dcp.ReadableBody(Payload(op)) && Demands(t, Payload(op))
            && Handle(t, infos, 0, Payload(op)) == (OneEntry([98], 0), Some(Dcp.FileList([NodeInfo([98])])))
            && !ParentExists(t, op.path) && Target(t, Payload(op)) == Some([[98]])
            && Lookup(OneEntry([98], 0), op.path).None?
  {
    hide Lookup, ParentExists, Tokens, Target, LastSlash, AddNode, Attach;
    var t, op := InitialTree(), Misplaced(tid, user).op;
    MisplacedTarget(tid, user);
    RequestPath(op);
    LandsInRoot(t, infos, user);
    RootIsAttached();
    TwoLevelPath();
  }

  lemma RootIsAttached()
    ensures OneEntry([98], 0) == Attach(InitialTree(), 0, [98], Some(0))
  {
  }

  lemma MisplacedHarms(infos: seq<ServerInfo>, w: World, a: Asking, user: blob)
    requires infos != [] && user != [] && a == Misplaced(a.tid, user)
    requires Fits(infos, w) && w.tree == InitialTree()
    requires w.servers[0] == Server(Awaiting(a), map[], [a], IN_STEP, InStep)
    ensures Enabled(infos, w, Serve(0)) && !Harmless(infos, w, Serve(0))
  {
    hide Handle, Demands, ParentExists, Target, Lookup, Valid, OwnersKnown, Served;
    MisplacedHandled(infos, a.tid, user);
  }

  /** What the creation of a file without a parent is when its answer has come. */
  lemma MisplacedMade(infos: seq<ServerInfo>, w: World, a: Asking, user: blob)
    requires infos != [] && user != [] && a == Misplaced(a.tid, user)
    requires Fits(infos, w) && w.tree == OneEntry([98], 0)
    requires w.servers[0] == AwaitsWith(a, Line(true, Reply(a.tid, infos[0].id, Dcp.FileList([NodeInfo([98])]))))
    ensures Enabled(infos, w, Finish(0)) && Made(infos, w, Finish(0)) == Some(Tokens(a.op.path))
    ensures Find(w.tree, Tokens(a.op.path)).None?
  {
    hide Tokens, Reply, Arrived, Hear, Slipped, Dcp.Accepts, Dcp.CheckResponse, Valid, OwnersKnown, Handle, Find;
    var b := Dcp.FileList([NodeInfo([98])]);
    MisplacedHandled(infos, a.tid, user);
    assert Named(NodeInfo([98]));
    ReplyHeard(w.servers[0], infos[0], a, b);
    Dcp.ReplyAccepted(a.tid, infos[0].id, DIRECTORY_FSID, DCP_CREATE, b);
  }

  lemma StoresEmpty(w: World)
    requires Valid(w.tree) && forall i :: 0 <= i < |w.servers| ==> w.servers[i].store == map[]
    ensures StoredIsKnown(w)
  {
  }

  lemma NobodyOwns(infos: seq<ServerInfo>, w: World)
    requires w.tree == InitialTree()
    ensures OwnersHold(infos, w)
  {
    hide HeldBy;
    forall q ensures OwnerAt(InitialTree(), q).None? {
      EmptyDirectory(q);
    }
  }

  /** A concrete run, from nothing: when the creation of /a/b has been served, its owner does not hold what it owns
      (/b), and when it is finished, a file is stored (/a/b) that the directory does not know. */
  lemma MissingParentBreaksBoth(infos: seq<ServerInfo>, tid: uint64, user: blob)
    requires infos != [] && user != []
    ensures var served := Reached(infos, [Begin(0, Misplaced(tid, user)), Serve(0)]);
            served.Some? && Valid(served.value.tree) && !OwnersHold(infos, served.value)
    ensures var finished := Reached(infos, [Begin(0, Misplaced(tid, user)), Serve(0), Finish(0)]);
            finished.Some? && Valid(finished.value.tree) && !StoredIsKnown(finished.value)
  {
    hide Reached, Do, OwnersHold, StoredIsKnown, Enabled, Made, Handle, Find, Harmless, Connected, Demands, Target,
         Lookup, ParentExists;
    var a := Misplaced(tid, user);
    MisplacedHandled(infos, tid, user);
    var w1 := FirstBegun(infos, a);
    var w2 := FirstServed(infos, a);
    MisplacedHarms(infos, w1, a, user);
    NobodyOwns(infos, w1);
    AlwaysConnected(infos, [Begin(0, a)]);
    StepKeepsOwnersIff(infos, w1, Serve(0));
    ReachMore(infos, [Begin(0, a)], w1, Serve(0));
    assert [Begin(0, a)] + [Serve(0)] == [Begin(0, a), Serve(0)];
    MisplacedMade(infos, w2, a, user);
    StoresEmpty(w2);
    StepKnownIff(infos, w2, Finish(0));
    ReachMore(infos, [Begin(0, a), Serve(0)], w2, Finish(0));
    assert [Begin(0, a), Serve(0)] + [Finish(0)] == [Begin(0, a), Serve(0), Finish(0)];
  }
}
