/** The connection between a file server and the directory (dssd in src/fsservd.c) over several requests: the thread
    that serves it may end while the connection stays open, and what a failed parse has not read stays in front of
    the next answer. */
module Lines {
  import opened Wrappers
  import opened Bytes
  import opened Messages
  import opened Codec
  import opened Sections
  import opened Paths
  import opened DirTree
  import opened DirServer
  import Dcp

  /** The server's end: whether the directory's thread still runs, and the bytes that have come and are not read. */
  datatype Line = Line(serving: bool, unread: bytes)

  const IN_STEP := Line(true, [])

  /** What the server's next parse gives: a message, or NULL, or it waits for more bytes. */
  datatype Heard = Waits | Heard(reply: Option<Msg>)

  datatype Asked = Asked(tree: Tree, line: Line, heard: Heard)

  /** A request goes to the directory: it is served and answered, or it ends the thread, or there is no thread. */
  function Post(t: Tree, infos: seq<ServerInfo>, slot: nat, line: Line, request: Msg): (Tree, Line)
    requires Valid(t) && OwnersKnown(t, |infos|) && slot < |infos|
  {
    if !line.serving then (t, line)
    else
      match Transmit(DCP, request)
      case None => (t, line.(serving := false))
      case Some(m) =>
        match ServeMessage(t, infos, slot, m)
        case None => (t, line.(serving := false))
        case Some((u, answer)) => (u, line.(unread := line.unread + answer))
  }

  /** The server parses what has come. */
  function Hear(line: Line): (r: (Line, Heard))
    ensures r.1.Heard? && r.1.reply.Some? ==> Headed(DCP, r.1.reply.value)
  {
    match Decode(DCP, line.unread)
    case Got((m, rest)) => (line.(unread := rest), Heard(Some(m)))
    case Broken(rest) => (line.(unread := rest), Heard(None))
    case Short => (line, Waits)
  }

  function Exchange(t: Tree, infos: seq<ServerInfo>, slot: nat, line: Line, request: Msg): (r: Asked)
    requires Valid(t) && OwnersKnown(t, |infos|) && slot < |infos|
    ensures r.heard.Heard? && r.heard.reply.Some? ==> Headed(DCP, r.heard.reply.value)
  {
    var (u, l) := Post(t, infos, slot, line, request);
    var (l', heard) := Hear(l);
    Asked(u, l', heard)
  }

  // ---- What a request keeps -----------------------------------------------------------------------------

  lemma PostKeeps(t: Tree, infos: seq<ServerInfo>, slot: nat, line: Line, request: Msg)
    requires Valid(t) && OwnersKnown(t, |infos|) && slot < |infos|
    ensures var (u, l) := Post(t, infos, slot, line, request);
            && Valid(u) && OwnersKnown(u, |infos|) && StillResolves(t, u) && (RootNamed(t) ==> RootNamed(u))
            && line.unread <= l.unread && (l.serving ==> line.serving)
  {
    if line.serving && Transmit(DCP, request).Some? {
      var m := Transmit(DCP, request).value;
      if Answer(t, infos, slot, m).Some? {
        AnswerKeeps(t, infos, slot, m);
        AnswerResolves(t, infos, slot, m);
      }
    }
  }

  lemma ExchangeKeeps(t: Tree, infos: seq<ServerInfo>, slot: nat, line: Line, request: Msg)
    requires Valid(t) && OwnersKnown(t, |infos|) && slot < |infos|
    ensures var r := Exchange(t, infos, slot, line, request);
            && Valid(r.tree) && OwnersKnown(r.tree, |infos|) && StillResolves(t, r.tree)
            && (RootNamed(t) ==> RootNamed(r.tree))
            && (r.heard.Heard? && r.heard.reply.Some? ==>
                  Open(r.heard.reply.value) && AllReadable(r.heard.reply.value.sections))
  {
    PostKeeps(t, infos, slot, line, request);
    var l := Post(t, infos, slot, line, request).1;
    if Decode(DCP, l.unread).Got? {
      DecodeIsEncodeInverse(DCP, l.unread);
    }
  }

  /** A line whose thread has ended stays so, and once all its bytes are read the server waits for ever. */
  lemma EndedWaits(t: Tree, infos: seq<ServerInfo>, slot: nat, request: Msg)
    requires Valid(t) && OwnersKnown(t, |infos|) && slot < |infos|
    ensures Exchange(t, infos, slot, Line(false, []), request) == Asked(t, Line(false, []), Waits)
  {
    NothingHeard(false);
  }

  lemma NothingHeard(serving: bool)
    ensures Hear(Line(serving, [])) == (Line(serving, []), Waits)
  {
    assert Read64([]).Short?;
  }

  // ---- Lines in step ------------------------------------------------------------------------------------

  /** An answer on a line in step is heard as it was built, or leaves the rest of itself unread. */
  lemma AnswerHeard(m: Msg)
    requires Headed(DCP, m) && Open(m)
    ensures Hear(Line(true, Encode(Seal(m)))) ==
              if AllReadable(m.sections) then (IN_STEP, Heard(Some(m)))
              else (Line(true, Unread(m.sections)), Heard(None))
  {
    RoundTrip(DCP, m, []);
    assert Encode(Seal(m)) + [] == Encode(Seal(m));
    assert Unread(m.sections) + [] == Unread(m.sections);
  }

  /** A request that the parser reads and the handler takes, on a line in step. */
  lemma AskedInStep(t: Tree, infos: seq<ServerInfo>, slot: nat, request: Msg, u: Tree, reply: Dcp.Body)
    requires Valid(t) && OwnersKnown(t, |infos|) && slot < |infos|
    requires Transmit(DCP, request) == Some(request) && Answer(t, infos, slot, request) == Some((u, Some(reply)))
    ensures var m := Dcp.Message(request.tid, infos[slot].id, DIRECTORY_FSID, reply);
            Exchange(t, infos, slot, IN_STEP, request) ==
              if Dcp.ReadableBody(reply) then Asked(u, IN_STEP, Heard(Some(m)))
              else Asked(u, Line(true, Unread(Dcp.SectionsOf(reply))), Heard(None))
  {
    hide Hear, Transmit, Decode, Encode, Answer;
    var m := Dcp.Message(request.tid, infos[slot].id, DIRECTORY_FSID, reply);
    Dcp.BodyReadable(reply);
    AnswerHeard(m);
    assert [] + Encode(Seal(m)) == Encode(Seal(m));
  }

  /** A request that cannot be read ends the thread, and the server waits. */
  lemma UnreadRequest(t: Tree, infos: seq<ServerInfo>, slot: nat, request: Msg)
    requires Valid(t) && OwnersKnown(t, |infos|) && slot < |infos| && Transmit(DCP, request).None?
    ensures Exchange(t, infos, slot, IN_STEP, request) == Asked(t, Line(false, []), Waits)
  {
    NothingHeard(false);
  }

  // ---- Lines out of step ----------------------------------------------------------------------------------

  /** What is left of a file info of the directory whose path is empty: its user name and its counters. */
  function Remnant(): bytes {
    LeftOf(File(NodeInfo([])))
  }

  /** The bytes on the line begin in the middle of an answer. */
  predicate Slipped(bs: bytes) {
    Remnant() <= bs
  }

  /** The file infos that the directory sends all have the same user name and no counters. */
  predicate OfDirectory(b: Dcp.Body) {
    b.FileList? ==> forall i :: 0 <= i < |b.files| ==> b.files[i] == NodeInfo(b.files[i].path)
  }

  lemma HandledOfDirectory(t: Tree, infos: seq<ServerInfo>, slot: nat, b: Dcp.Body)
    requires Valid(t) && OwnersKnown(t, |infos|) && slot < |infos| && Demands(t, b)
    ensures Handle(t, infos, slot, b).1.Some? ==> OfDirectory(Handle(t, infos, slot, b).1.value)
  {
  }

  lemma NodeInfoReadable(name: blob)
    ensures Readable(File(NodeInfo(name))) <==> name != []
  {
  }

  lemma {:induction false} UnreadFiles(files: seq<FileInfo>)
    requires forall i :: 0 <= i < |files| ==> files[i] == NodeInfo(files[i].path)
    requires !AllNamed(files)
    ensures Slipped(Unread(FileSections(files)))
  {
    var s := FileSections(files);
    NodeInfoReadable(files[0].path);
    if files[0].path != [] {
      assert s[1..] == FileSections(files[1..]);
      UnreadFiles(files[1..]);
    }
  }

  /** An answer of the directory that cannot be read leaves the line out of step. */
  lemma UnreadSlips(b: Dcp.Body)
    requires OfDirectory(b) && !Dcp.ReadableBody(b) && (b.FileList? || b.Failure? || b.ReplicaStatus?)
    ensures Slipped(Unread(Dcp.SectionsOf(b)))
  {
    var s := Dcp.SectionsOf(b);
    assert s == [Integer(|b.files|)] + FileSections(b.files);
    assert s[1..] == FileSections(b.files);
    UnreadFiles(b.files);
  }

  const REMNANT_TID: uint64 := Combine(4, Value(USER))

  lemma RemnantWords()
    ensures Value(USER) < 0x1_0000_0000
    ensures Remnant() == BigEndian(REMNANT_TID, 8) + (BigEndian(0, 8) + BigEndian(0, 4))
  {
    assert |USER| == 4;
    Pow256Widths();
    BigEndianOfValue(USER);
    WordsSideBySide(4, Value(USER));
    WordsSideBySide(0, 0);
    var z := BigEndian(0, 4);
    Associate(BigEndian(4, 4), USER, Counters(0, 0, 0));
    Associate(z, z, z);
  }

  /** A message that is parsed on a line out of step has four and the user name as its transaction and no server id. */
  lemma SlippedHeader(bs: bytes)
    requires Slipped(bs) && Decode(DCP, bs).Got?
    ensures Value(USER) < 0x1_0000_0000
    ensures var m := Decode(DCP, bs).value.0;
            m.tid == REMNANT_TID && m.ids[0] == 0
  {
    hide Remnant, DecodeSections, BigEndian;
    RemnantWords();
    var x := bs[|Remnant()|..];
    assert bs == Remnant() + x;
    var a, b, c := BigEndian(REMNANT_TID, 8), BigEndian(0, 8), BigEndian(0, 4);
    Associate(a, b + c, x);
    Associate(b, c, x);
    Forward64(REMNANT_TID, b + (c + x));
    Forward64(0, c + x);
    var ids := ReadIds(b + (c + x), 2).value.0;
    assert ids[0] == 0;
  }

  /** So it is refused, whatever was asked, for its transaction or for the server's id. */
  lemma SlippedIsRefused(bs: bytes, tid: uint64, sid: uint64, fsid: uint64, request: uint16)
    requires Slipped(bs) && sid != 0
    ensures Decode(DCP, bs).Got? ==>
              Dcp.CheckResponse(Some(Decode(DCP, bs).value.0), tid, sid, fsid, request) in {-2, -3}
  {
    hide Decode, Remnant;
    if Decode(DCP, bs).Got? {
      SlippedHeader(bs);
    }
  }

  /** The next answer on a line out of step is not heard, or not understood, or refused. */
  lemma SlippedHears(t: Tree, infos: seq<ServerInfo>, slot: nat, line: Line, request: Msg, tid: uint64, sid: uint64,
                     fsid: uint64, kind: uint16)
    requires Valid(t) && OwnersKnown(t, |infos|) && slot < |infos| && Slipped(line.unread) && sid != 0
    ensures var heard := Exchange(t, infos, slot, line, request).heard;
            heard.Heard? ==> Dcp.CheckResponse(heard.reply, tid, sid, fsid, kind) in {-1, -2, -3}
  {
    hide Slipped, Post;
    PostKeeps(t, infos, slot, line, request);
    var l := Post(t, infos, slot, line, request).1;
    SlippedGrows(line.unread, l.unread);
    SlippedIsRefused(l.unread, tid, sid, fsid, kind);
  }

  lemma SlippedGrows(a: bytes, b: bytes)
    requires Slipped(a) && a <= b
    ensures Slipped(b)
  {
  }
}
