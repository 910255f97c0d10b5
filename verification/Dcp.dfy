/** The directory control protocol of src/dcp.c: the messages its senders build, the section
    validator and the response check. */
module Dcp {
  import opened Wrappers
  import opened Bytes
  import opened Messages
  import opened Codec
  import opened Sections

  /** The payloads the program builds. */
  datatype Body =
    | Hello(name: blob, capacity: int32, usage: int32, fileCount: int32)
    | HelloResponse(refresh: int32)
    | Create(info: FileInfo)
    | Read(recurse: int32, path: blob)
    | Update(info: FileInfo)
    | GetReplicas(path: blob)
    | FileList(files: countable<FileInfo>)
    | ReplicaStatus(hosts: countable<blob>)
    | Failure(code: int32, text: blob)

  function KindOf(b: Body): uint16 {
    match b
    case Hello(_, _, _, _) => DCP_HELLO
    case HelloResponse(_) => DCP_HELLO_RESPONSE
    case Create(_) => DCP_CREATE
    case Read(_, _) => DCP_READ
    case Update(_) => DCP_UPDATE
    case GetReplicas(_) => DCP_GET_REPLICAS
    case FileList(_) => DCP_FILEINFO
    case ReplicaStatus(_) => DCP_REPLICA_STATUS
    case Failure(_, _) => DCP_ERROR
  }

  function SectionsOf(b: Body): (r: seq<Section>)
    ensures NoNext !in r
  {
    match b
    case Hello(name, capacity, usage, fileCount) => [Text(name), Integer(capacity), Integer(usage), Integer(fileCount)]
    case HelloResponse(refresh) => [Integer(refresh)]
    case Create(info) => [File(info)]
    case Read(recurse, path) => [Integer(recurse), Text(path)]
    case Update(info) => [File(info)]
    case GetReplicas(path) => [Text(path)]
    case FileList(files) => [Integer(|files|)] + FileSections(files)
    case ReplicaStatus(hosts) => [Integer(|hosts|)] + TextSections(hosts)
    case Failure(code, text) => [Integer(code), Text(text)]
  }

  function Message(tid: uint64, sid: uint64, fsid: uint64, b: Body): (m: Msg)
    ensures Headed(DCP, m) && Open(m)
  {
    Msg(tid, [sid, fsid], KindOf(b), SectionsOf(b))
  }

  /** A file server's request: all but the replica request have the two ids of the header the other way round. */
  function Asking(tid: uint64, sid: uint64, fsid: uint64, b: Body): (m: Msg)
    ensures Headed(DCP, m) && Open(m)
  {
    if b.GetReplicas? then Message(tid, sid, fsid, b) else Message(tid, fsid, sid, b)
  }

  // ---- Validation -------------------------------------------------------------------------------

  /** The tags a message of this kind must carry, given its content c; a count may be negative and then
      asks for nothing. Kinds without a rule carry no sections. */
  function Shape(kind: uint16, c: seq<Section>): (r: seq<Tag>)
    ensures TNone !in r
  {
    match kind
    case 1 => [TText, TInteger, TInteger, TInteger]
    case 2 => [TInteger]
    case 4 => [TFile]
    case 5 => [TInteger, TText]
    case 6 => [TFile]
    case 11 => [TInteger] + Repeat(TText, IntegerAt(c, 0))
    case 12 => [TText]
    case 15 => [TInteger] + Repeat(TFile, IntegerAt(c, 0))
    case _ => []
  }

  /** The grammar: the sections before the end marker are exactly those of the kind. */
  predicate Accepts(m: Msg) {
    Tags(Content(m.sections)) == Shape(m.kind, Content(m.sections))
  }

  lemma AcceptsByCursor(m: Msg, shape: seq<Tag>)
    requires shape == Shape(m.kind, m.sections)
    ensures Accepts(m) <==> Passed(m.sections, shape, |shape|) && Test(m.sections, |shape|, TNone)
  {
    ContentIntegers(m.sections, 0);
    ShapeFits(m.sections, shape);
  }

  lemma RepeatedShape(s: seq<Section>, shape: seq<Tag>, t: Tag, count: int)
    requires shape == [TInteger] + Repeat(t, count) && |s| > 0 && s[0].Integer?
    ensures Passed(s, shape, |shape|) <==>
              |shape| <= |s| && forall k :: 1 <= k < |shape| ==> TagOf(s[k]) == t
  {
    assert forall k :: 1 <= k < |shape| ==> shape[k] == t;
    assert shape[0] == TInteger;
  }

  /** The validator walks the list with a cursor; it answers 0 exactly on the grammar. */
  method ValidateSections(m: Msg) returns (r: int)
    ensures r == if Accepts(m) then 0 else -1
  {
    hide Accepts;
    var s := m.sections;
    var i := 0;
    ghost var shape := Shape(m.kind, s);
    AcceptsByCursor(m, shape);
    match m.kind {
      case 1 =>
        if !Test(s, i, TText) { return -1; }
        i := i + 1;
        if !Test(s, i, TInteger) { return -1; }
        i := i + 1;
        if !Test(s, i, TInteger) { return -1; }
        i := i + 1;
        if !Test(s, i, TInteger) { return -1; }
        i := i + 1;
      case 2 =>
        if !Test(s, i, TInteger) { return -1; }
        i := i + 1;
      case 4 =>
        if !Test(s, i, TFile) { return -1; }
        i := i + 1;
      case 5 =>
        if !Test(s, i, TInteger) { return -1; }
        i := i + 1;
        if !Test(s, i, TText) { return -1; }
        i := i + 1;
      case 6 =>
        if !Test(s, i, TFile) { return -1; }
        i := i + 1;
      case 11 =>
        if !Test(s, i, TInteger) { return -1; }
        i := i + 1;
        var ok, k := TestRepeated(s, i, s[0].value, TText);
        RepeatedShape(s, shape, TText, s[0].value);
        if !ok { return -1; }
        i := k;
      case 12 =>
        if !Test(s, i, TText) { return -1; }
        i := i + 1;
      case 15 =>
        if !Test(s, i, TInteger) { return -1; }
        i := i + 1;
        var ok, k := TestRepeated(s, i, s[0].value, TFile);
        RepeatedShape(s, shape, TFile, s[0].value);
        if !ok { return -1; }
        i := k;
      case _ =>
    }
    assert Passed(s, shape, i) && i == |shape|;
    if !Test(s, i, TNone) { return -1; }
    return 0;
  }

  /** The end marker that builders store and the wire drops does not change the verdict,
      nor does anything after the first marker. */
  lemma EndMarkerIrrelevant(m: Msg)
    ensures Accepts(Seal(m)) <==> Accepts(m)
    ensures Accepts(m.(sections := Content(m.sections))) <==> Accepts(m)
  {
    ContentOfSealed(m.sections);
    ContentOfOpen(Content(m.sections));
  }

  /** The payloads the parser can read back. */
  predicate ReadableBody(b: Body) {
    match b
    case Create(info) => Named(info)
    case Update(info) => Named(info)
    case FileList(files) => AllNamed(files)
    case _ => true
  }

  lemma BodyReadable(b: Body)
    ensures AllReadable(SectionsOf(b)) <==> ReadableBody(b)
  {
    match b {
      case FileList(files) => FileSectionsReadable([Integer(|files|)], files);
      case Create(info) =>
        assert AllReadable(SectionsOf(b)) <==> Readable(SectionsOf(b)[0]);
      case Update(info) =>
        assert AllReadable(SectionsOf(b)) <==> Readable(SectionsOf(b)[0]);
      case _ =>
    }
  }

  /** Every message the program builds arrives as built when its file infos are named, and not at all
      otherwise; the validator then accepts it unless it is an error message, for which it has no rule. */
  lemma BuiltIsAccepted(tid: uint64, sid: uint64, fsid: uint64, b: Body)
    ensures var m := Message(tid, sid, fsid, b);
            && Transmit(DCP, m) == (if ReadableBody(b) then Some(m) else None)
            && (Accepts(m) <==> !b.Failure?)
  {
    var m := Message(tid, sid, fsid, b);
    Transmitted(DCP, m);
    BodyReadable(b);
    ContentOfOpen(m.sections);
    BuiltShape(b);
  }

  lemma BuiltShape(b: Body)
    ensures Tags(SectionsOf(b)) == Shape(KindOf(b), SectionsOf(b)) <==> !b.Failure?
  {
    var s := SectionsOf(b);
    match b {
      case FileList(files) =>
        assert Shape(KindOf(b), s) == [TInteger] + Repeat(TFile, |files|);
      case ReplicaStatus(hosts) =>
        assert Shape(KindOf(b), s) == [TInteger] + Repeat(TText, |hosts|);
      case Failure(code, text) =>
        assert |Tags(s)| == 2;
      case _ =>
    }
  }

  /** The kinds that carry a payload of this program and are checked by the validator. */
  predicate Ruled(kind: uint16) {
    kind in {DCP_HELLO, DCP_HELLO_RESPONSE, DCP_CREATE, DCP_READ, DCP_UPDATE, DCP_GET_REPLICAS, DCP_FILEINFO,
             DCP_REPLICA_STATUS}
  }

  /** The counted entries after the first section, as many as its count asks for. */
  function Counted(s: seq<Section>): (r: seq<Section>)
    requires |s| > 0 && s[0].Integer? && |s| == 1 + (if s[0].value < 0 then 0 else s[0].value)
    ensures s == [s[0]] + r && |r| < 0x8000_0000
  {
    s[1..1 + if s[0].value < 0 then 0 else s[0].value]
  }

  lemma CountedEntries(m: Msg)
    requires Accepts(m) && m.kind in {DCP_FILEINFO, DCP_REPLICA_STATUS}
    ensures var s := Content(m.sections);
            && |s| > 0 && s[0].Integer? && |s| == 1 + (if s[0].value < 0 then 0 else s[0].value)
            && (m.kind == DCP_FILEINFO ==> forall i :: 0 <= i < |Counted(s)| ==> Counted(s)[i].File?)
            && (m.kind == DCP_REPLICA_STATUS ==> forall i :: 0 <= i < |Counted(s)| ==> Counted(s)[i].Text?)
  {
    AcceptedEntries(m);
  }

  /** The payload of a counted list. */
  function ListOf(m: Msg): (b: Body)
    requires Accepts(m) && m.kind in {DCP_FILEINFO, DCP_REPLICA_STATUS}
    ensures KindOf(b) == m.kind
  {
    CountedEntries(m);
    var s := Counted(Content(m.sections));
    if m.kind == DCP_FILEINFO then FileList(FilesIn(s)) else ReplicaStatus(TextsIn(s))
  }

  /** The payload of an accepted message, read through the section accessors: each access is in range and
      of the right tag. */
  function BodyOf(m: Msg): (b: Body)
    requires Accepts(m) && Ruled(m.kind)
    ensures KindOf(b) == m.kind
  {
    var s := Content(m.sections);
    AcceptedEntries(m);
    match m.kind
    case 1 => Hello(s[0].data, s[1].value, s[2].value, s[3].value)
    case 2 => HelloResponse(s[0].value)
    case 4 => Create(s[0].info)
    case 5 => Read(s[0].value, s[1].data)
    case 6 => Update(s[0].info)
    case 12 => GetReplicas(s[0].data)
    case _ => ListOf(m)
  }

  lemma AcceptedEntries(m: Msg)
    requires Accepts(m)
    ensures var s, shape := Content(m.sections), Shape(m.kind, Content(m.sections));
            |s| == |shape| && forall i :: 0 <= i < |s| ==> TagOf(s[i]) == shape[i]
  {
    var s := Content(m.sections);
    assert forall i :: 0 <= i < |s| ==> TagOf(s[i]) == Tags(s)[i];
  }

  lemma AcceptedList(m: Msg)
    requires Accepts(m) && m.kind in {DCP_FILEINFO, DCP_REPLICA_STATUS}
    ensures var s := Content(m.sections);
            SectionsOf(BodyOf(m)) == if IntegerAt(s, 0) < 0 then [Integer(0)] else s
  {
    var s := Content(m.sections);
    CountedEntries(m);
    if m.kind == DCP_FILEINFO {
      assert s == [s[0]] + FileSections(FilesIn(Counted(s)));
    } else {
      assert s == [s[0]] + TextSections(TextsIn(Counted(s)));
    }
  }

  lemma AcceptedFixed(m: Msg)
    requires Accepts(m) && Ruled(m.kind) && m.kind !in {DCP_FILEINFO, DCP_REPLICA_STATUS}
    ensures SectionsOf(BodyOf(m)) == Content(m.sections)
  {
    AcceptedEntries(m);
  }

  /** An accepted message is a built one, but for a negative count, which stands for an empty list. */
  lemma AcceptedIsBuilt(m: Msg)
    requires Accepts(m) && Ruled(m.kind)
    ensures var s := Content(m.sections);
            SectionsOf(BodyOf(m)) ==
              if m.kind in {DCP_FILEINFO, DCP_REPLICA_STATUS} && IntegerAt(s, 0) < 0 then [Integer(0)] else s
  {
    if m.kind in {DCP_FILEINFO, DCP_REPLICA_STATUS} {
      AcceptedList(m);
    } else {
      AcceptedFixed(m);
    }
  }

  lemma ListInjective(a: Body, b: Body)
    requires KindOf(a) == KindOf(b) && SectionsOf(a) == SectionsOf(b) && (a.FileList? || a.ReplicaStatus?)
    ensures a == b
  {
    var s, t := SectionsOf(a), SectionsOf(b);
    if a.FileList? {
      assert s[1..] == FileSections(a.files) && t[1..] == FileSections(b.files);
      FileSectionsInjective(a.files, b.files);
    } else {
      assert s[1..] == TextSections(a.hosts) && t[1..] == TextSections(b.hosts);
      TextSectionsInjective(a.hosts, b.hosts);
    }
  }

  lemma FixedInjective(a: Body, b: Body)
    requires KindOf(a) == KindOf(b) && SectionsOf(a) == SectionsOf(b) && !a.FileList? && !a.ReplicaStatus?
    ensures a == b
  {
    var s, t := SectionsOf(a), SectionsOf(b);
    assert s[0] == t[0];
    assert |s| >= 2 ==> s[1] == t[1];
    assert |s| == 4 ==> s[2] == t[2] && s[3] == t[3];
  }

  lemma SectionsInjective(a: Body, b: Body)
    requires KindOf(a) == KindOf(b) && SectionsOf(a) == SectionsOf(b)
    ensures a == b
  {
    if a.FileList? || a.ReplicaStatus? {
      ListInjective(a, b);
    } else {
      FixedInjective(a, b);
    }
  }

  /** Reading the payload back from a built message gives the payload that was built. */
  lemma BodyOfBuilt(tid: uint64, sid: uint64, fsid: uint64, b: Body)
    requires !b.Failure?
    ensures var m := Message(tid, sid, fsid, b);
            Accepts(m) && Ruled(m.kind) && BodyOf(m) == b
  {
    var m := Message(tid, sid, fsid, b);
    BuiltIsAccepted(tid, sid, fsid, b);
    ContentOfOpen(m.sections);
    AcceptedIsBuilt(m);
    SectionsInjective(BodyOf(m), b);
  }

  /** Either way round a request arrives as built, and its payload is read back. */
  lemma AskingArrives(tid: uint64, sid: uint64, fsid: uint64, b: Body)
    requires !b.Failure?
    ensures var m := Asking(tid, sid, fsid, b);
            && Transmit(DCP, m) == (if ReadableBody(b) then Some(m) else None)
            && m.tid == tid && m.kind == KindOf(b)
            && Accepts(m) && Ruled(m.kind) && BodyOf(m) == b
  {
    hide Transmit, Accepts, BodyOf;
    BuiltIsAccepted(tid, sid, fsid, b);
    BodyOfBuilt(tid, sid, fsid, b);
    BuiltIsAccepted(tid, fsid, sid, b);
    BodyOfBuilt(tid, fsid, sid, b);
  }

  // ---- Response check -----------------------------------------------------------------------------

  /** An expected id of 0 is not compared. */
  predicate IdMatches(expected: uint64, id: uint64) {
    expected == 0 || id == expected
  }

  /** The response kind a request waits for; other requests take any kind. */
  function AnswerKind(request: uint16): Option<uint16> {
    match request
    case 1 => Some(DCP_HELLO_RESPONSE)
    case 4 => Some(DCP_FILEINFO)
    case 5 => Some(DCP_FILEINFO)
    case 6 => Some(DCP_FILEINFO)
    case 12 => Some(DCP_REPLICA_STATUS)
    case _ => None
  }

  function CheckResponse(m: Option<Msg>, tid: uint64, sid: uint64, fsid: uint64, request: uint16): (r: int)
    requires m.Some? ==> Headed(DCP, m.value)
    ensures -6 <= r <= 0
    ensures r != -1 ==> m.Some?
  {
    if m.None? then -1
    else if !IdMatches(tid, m.value.tid) then -2
    else if !IdMatches(sid, m.value.ids[0]) then -3
    else if !IdMatches(fsid, m.value.ids[1]) then -4
    else if request == 0 then 0
    else if m.value.kind == DCP_ERROR then -5
    else match AnswerKind(request)
      case None => 0
      case Some(k) => if m.value.kind == k then 0 else -6
  }

  /** The code names the first of the checks that fails; an open request takes any kind. */
  lemma CodeNames(m: Msg, tid: uint64, sid: uint64, fsid: uint64, request: uint16)
    requires Headed(DCP, m)
    ensures var r := CheckResponse(Some(m), tid, sid, fsid, request);
            && (r == -2 <==> tid != 0 && m.tid != tid)
            && (r == -3 <==> r != -2 && sid != 0 && m.ids[0] != sid)
            && (r == -4 <==> r !in {-2, -3} && fsid != 0 && m.ids[1] != fsid)
            && (r == -5 <==> r !in {-2, -3, -4} && request != 0 && m.kind == 16)
  {
  }

  /** Which payloads answer which request. */
  predicate Answers(request: uint16, b: Body) {
    b.Failure? || AnswerKind(request) == Some(KindOf(b))
  }

  /** A response that carries the ids of the request is refused only for being an error or of another kind. */
  lemma OwnIdsPass(tid: uint64, sid: uint64, fsid: uint64, request: uint16, b: Body)
    requires AnswerKind(request).Some?
    ensures var r := CheckResponse(Some(Message(tid, sid, fsid, b)), tid, sid, fsid, request);
            && (r == 0 <==> !b.Failure? && Answers(request, b))
            && (r == -5 <==> b.Failure?)
            && (r == -6 <==> !Answers(request, b))
            && r in {0, -5, -6}
  {
  }

  /** A built reply of the kind that the request waits for passes the response check and the validator. */
  lemma ReplyAccepted(tid: uint64, sid: uint64, fsid: uint64, request: uint16, b: Body)
    requires AnswerKind(request) == Some(KindOf(b)) && !b.Failure?
    ensures var m := Message(tid, sid, fsid, b);
            CheckResponse(Some(m), tid, sid, fsid, request) == 0 && Accepts(m)
  {
    BuiltShape(b);
    ContentOfOpen(SectionsOf(b));
    OwnIdsPass(tid, sid, fsid, request, b);
  }

  /** An id that is left open stands for whatever came. */
  function Expected(expected: uint64, id: uint64): uint64 {
    if expected == 0 then id else expected
  }

  /** The message that the program builds to answer the request with b; a list that is empty may also be announced by
      a negative count. */
  predicate IsReply(m: Msg, tid: uint64, sid: uint64, fsid: uint64, request: uint16, b: Body)
    requires Headed(DCP, m)
  {
    var built := Message(Expected(tid, m.tid), Expected(sid, m.ids[0]), Expected(fsid, m.ids[1]), b);
    && !b.Failure? && AnswerKind(request) == Some(KindOf(b))
    && (|| m == built
        || (b in {FileList([]), ReplicaStatus([])} && IntegerAt(m.sections, 0) < 0
            && m == built.(sections := [Integer(IntegerAt(m.sections, 0))])))
  }

  lemma NegativeCountAccepted(m: Msg)
    requires m.kind in {DCP_FILEINFO, DCP_REPLICA_STATUS} && IntegerAt(m.sections, 0) < 0
    requires m.sections == [Integer(IntegerAt(m.sections, 0))]
    ensures Accepts(m)
  {
    ContentOfOpen(m.sections);
    assert Tags(m.sections) == [TInteger];
  }

  lemma PassedIsReply(m: Msg, tid: uint64, sid: uint64, fsid: uint64, request: uint16)
    requires Headed(DCP, m) && Open(m) && AnswerKind(request).Some?
    requires CheckResponse(Some(m), tid, sid, fsid, request) == 0 && Accepts(m)
    ensures Ruled(m.kind) && IsReply(m, tid, sid, fsid, request, BodyOf(m))
  {
    var b := BodyOf(m);
    AcceptedIsBuilt(m);
    ContentOfOpen(m.sections);
    assert m.ids == [Expected(sid, m.ids[0]), Expected(fsid, m.ids[1])];
    if m.kind in {DCP_FILEINFO, DCP_REPLICA_STATUS} && IntegerAt(m.sections, 0) < 0 {
      CountedEntries(m);
      assert m.sections == [Integer(IntegerAt(m.sections, 0))];
      assert |SectionsOf(b)| == 1;
    }
  }

  /** What passes both checks that follow a request is exactly what the program builds to answer it. */
  lemma PassesIffReply(m: Msg, tid: uint64, sid: uint64, fsid: uint64, request: uint16)
    requires Headed(DCP, m) && Open(m) && AnswerKind(request).Some?
    ensures CheckResponse(Some(m), tid, sid, fsid, request) == 0 && Accepts(m)
            <==> exists b :: IsReply(m, tid, sid, fsid, request, b)
  {
    if CheckResponse(Some(m), tid, sid, fsid, request) == 0 && Accepts(m) {
      PassedIsReply(m, tid, sid, fsid, request);
    }
    if b :| IsReply(m, tid, sid, fsid, request, b) {
      if m.sections == SectionsOf(b) {
        BuiltShape(b);
        ContentOfOpen(m.sections);
      } else {
        NegativeCountAccepted(m);
      }
    }
  }
}
