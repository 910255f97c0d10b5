/** The file access protocol of src/fap.c: the messages both ends build, the section validator,
    the command dispatch of the file server and the response check. */
module Fap {
  import opened Wrappers
  import opened Bytes
  import opened Messages
  import opened Codec
  import opened Sections

  /** The payloads the program builds. */
  datatype Body =
    | Hello(host: blob, user: blob)
    | HelloResponse(name: blob, port: int32)
    | Quit
    | CmdCreate(path: blob, fileType: int32)
    | CmdRead(path: blob, offset: int32, count: int32)
    | CmdWrite(path: blob, length: int32)
    | CmdList(recurse: int32, path: blob)
    | Ok
    | Files(files: countable<FileInfo>)
    | DataOut(length: int32)
    | Failure(code: int32, text: blob)

  function KindOf(b: Body): uint16 {
    match b
    case Hello(_, _) => FAP_HELLO
    case HelloResponse(_, _) => FAP_HELLO_RESPONSE
    case Quit => FAP_QUIT
    case CmdCreate(_, _) => FAP_COMMAND
    case CmdRead(_, _, _) => FAP_COMMAND
    case CmdWrite(_, _) => FAP_COMMAND
    case CmdList(_, _) => FAP_COMMAND
    case Ok => FAP_RESPONSE
    case Files(_) => FAP_RESPONSE
    case DataOut(_) => FAP_RESPONSE
    case Failure(_, _) => FAP_ERROR
  }

  function SectionsOf(b: Body): (r: seq<Section>)
    ensures NoNext !in r
  {
    match b
    case Hello(host, user) => [Text(host), Text(user)]
    case HelloResponse(name, port) => [Text(name), Integer(port)]
    case Quit => []
    case CmdCreate(path, fileType) => [Integer(CMD_CREATE), Text(path), Integer(fileType)]
    case CmdRead(path, offset, count) => [Integer(CMD_READ), Text(path), Integer(offset), Integer(count)]
    case CmdWrite(path, length) => [Integer(CMD_WRITE), Text(path), Integer(length)]
    case CmdList(recurse, path) => [Integer(CMD_LIST), Integer(recurse), Text(path)]
    case Ok => [Integer(RESP_OK)]
    case Files(files) => [Integer(RESP_FILEINFO), Integer(|files|)] + FileSections(files)
    case DataOut(length) => [Integer(RESP_DATAOUT), Integer(length)]
    case Failure(code, text) => [Integer(code), Text(text)]
  }

  function Message(tid: uint64, sid: uint64, cid: uint64, fsid: uint64, b: Body): (m: Msg)
    ensures Headed(FAP, m) && Open(m)
  {
    Msg(tid, [sid, cid, fsid], KindOf(b), SectionsOf(b))
  }

  // ---- Validation -------------------------------------------------------------------------------

  /** The tags a command must carry after its number; unknown numbers have no shape. */
  function CommandShape(cmd: int32): (r: Option<seq<Tag>>)
    ensures r.Some? ==> TNone !in r.value
    ensures r.Some? <==> 1 <= cmd <= 10
  {
    match cmd
    case 1 => Some([TInteger, TText, TInteger])
    case 2 => Some([TInteger, TText])
    case 3 => Some([TInteger, TText])
    case 4 => Some([TInteger, TText])
    case 5 => Some([TInteger, TText, TInteger, TInteger])
    case 6 => Some([TInteger, TText, TInteger])
    case 7 => Some([TInteger, TText, TInteger])
    case 8 => Some([TInteger, TText, TText, TInteger])
    case 9 => Some([TInteger, TText, TText])
    case 10 => Some([TInteger, TInteger, TText])
    case _ => None
  }

  function ResponseShape(resp: int32, count: int32): (r: Option<seq<Tag>>)
    ensures r.Some? ==> TNone !in r.value
  {
    match resp
    case 1 => Some([TInteger])
    case 2 => Some([TInteger, TInteger] + Repeat(TFile, count))
    case 3 => Some([TInteger, TInteger])
    case _ => None
  }

  function Shape(kind: uint16, c: seq<Section>): (r: Option<seq<Tag>>)
    ensures r.Some? ==> TNone !in r.value
  {
    match kind
    case 1 => Some([TText, TText])
    case 2 => Some([TText, TInteger])
    case 3 => Some([])
    case 5 => CommandShape(IntegerAt(c, 0))
    case 6 => ResponseShape(IntegerAt(c, 0), IntegerAt(c, 1))
    case 8 => Some([TInteger, TText])
    case _ => None
  }

  /** The grammar: the sections before the end marker are exactly those of the kind, command and response. */
  predicate Accepts(m: Msg) {
    Shape(m.kind, Content(m.sections)) == Some(Tags(Content(m.sections)))
  }

  /** The cursor reads command, response and count from the list itself, which agrees with the content. */
  lemma AcceptsByCursor(m: Msg)
    ensures var s, shape := m.sections, Shape(m.kind, m.sections);
            Accepts(m) <==> shape.Some? && Passed(s, shape.value, |shape.value|) && Test(s, |shape.value|, TNone)
  {
    ContentIntegers(m.sections, 0);
    if Content(m.sections) != [] {
      ContentIntegers(m.sections, 1);
    }
    var shape := Shape(m.kind, m.sections);
    if shape.Some? {
      ShapeFits(m.sections, shape.value);
    }
  }

  method TestAll(s: seq<Section>, start: nat, tags: seq<Tag>) returns (ok: bool)
    requires start <= |s| && TNone !in tags
    ensures ok <==> start + |tags| <= |s| && forall k :: start <= k < start + |tags| ==> TagOf(s[k]) == tags[k - start]
  {
    for k := 0 to |tags|
      invariant start + k <= |s| && forall j :: start <= j < start + k ==> TagOf(s[j]) == tags[j - start]
    {
      if !Test(s, start + k, tags[k]) {
        return false;
      }
    }
    ok := true;
  }

  /** The inner switch: the sections of one command after its number. */
  method TestCommand(s: seq<Section>, cmd: int32) returns (ok: bool, i: nat)
    requires |s| > 0 && s[0].Integer?
    ensures match CommandShape(cmd)
            case None => !ok
            case Some(shape) => (ok <==> Passed(s, shape, |shape|)) && (ok ==> i == |shape|)
  {
    i := 1;
    match cmd {
      case 1 => ok := TestAll(s, i, [TText, TInteger]); i := i + 2;
      case 2 => ok := TestAll(s, i, [TText]); i := i + 1;
      case 3 => ok := TestAll(s, i, [TText]); i := i + 1;
      case 4 => ok := TestAll(s, i, [TText]); i := i + 1;
      case 5 => ok := TestAll(s, i, [TText, TInteger, TInteger]); i := i + 3;
      case 6 => ok := TestAll(s, i, [TText, TInteger]); i := i + 2;
      case 7 => ok := TestAll(s, i, [TText, TInteger]); i := i + 2;
      case 8 => ok := TestAll(s, i, [TText, TText, TInteger]); i := i + 3;
      case 9 => ok := TestAll(s, i, [TText, TText]); i := i + 2;
      case 10 => ok := TestAll(s, i, [TInteger, TText]); i := i + 2;
      case _ => ok := false;
    }
  }

  /** The inner switch of a response: number, then count and entries, or length. */
  method TestResponse(s: seq<Section>, resp: int32) returns (ok: bool, i: nat)
    requires |s| > 0 && s[0].Integer? && s[0].value == resp
    ensures match ResponseShape(resp, IntegerAt(s, 1))
            case None => !ok
            case Some(shape) => (ok <==> Passed(s, shape, |shape|)) && (ok ==> i == |shape|)
  {
    i := 1;
    ghost var shape := ResponseShape(resp, IntegerAt(s, 1));
    match resp {
      case 1 =>
        ok := true;
      case 2 =>
        if !Test(s, i, TInteger) {
          assert shape.value[1] == TInteger;
          return false, i;
        }
        i := i + 1;
        var count := s[i - 1].value;
        ok, i := TestRepeated(s, i, count, TFile);
        assert shape.value == [TInteger, TInteger] + Repeat(TFile, count);
      case 3 =>
        ok := Test(s, i, TInteger);
        i := i + 1;
      case _ =>
        ok := false;
    }
  }

  /** The validator walks the list with a cursor; it answers 0 exactly on the grammar. */
  method ValidateSections(m: Msg) returns (r: int)
    ensures r == if Accepts(m) then 0 else -1
  {
    var s := m.sections;
    var i := 0;
    var ok := true;
    ghost var shape := Shape(m.kind, s);
    AcceptsByCursor(m);
    match m.kind {
      case 1 =>
        ok := TestAll(s, i, [TText, TText]);
        i := i + 2;
      case 2 =>
        ok := TestAll(s, i, [TText, TInteger]);
        i := i + 2;
      case 3 =>
      case 5 =>
        if !Test(s, i, TInteger) {
          return -1;
        }
        ok, i := TestCommand(s, s[0].value);
      case 6 =>
        if !Test(s, i, TInteger) {
          return -1;
        }
        ok, i := TestResponse(s, s[0].value);
      case 8 =>
        ok := TestAll(s, i, [TInteger, TText]);
        i := i + 2;
      case _ =>
        ok := false;
    }
    assert ok <==> shape.Some? && Passed(s, shape.value, |shape.value|);
    if !ok {
      return -1;
    }
    assert i == |shape.value|;
    if !Test(s, i, TNone) {
      return -1;
    }
    return 0;
  }

  /** The end marker that builders store and the wire drops does not change the verdict,
      nor does anything after the first marker. */
  lemma EndMarkerIrrelevant(m: Msg)
    ensures Accepts(Seal(m)) <==> Accepts(m)
    ensures Accepts(m.(sections := Content(m.sections))) <==> Accepts(m)
  {
    ContentOfSealed(m.sections);
    ContentOfOpen(Content(m.sections));
  }

  predicate ReadableBody(b: Body) {
    b.Files? ==> AllNamed(b.files)
  }

  lemma BodyReadable(b: Body)
    ensures AllReadable(SectionsOf(b)) <==> ReadableBody(b)
  {
    if b.Files? {
      FileSectionsReadable([Integer(RESP_FILEINFO), Integer(|b.files|)], b.files);
    }
  }

  /** Every message the program builds arrives as built when its file infos are named, and not at all
      otherwise; the receiver's validator accepts all of them, errors included. */
  lemma BuiltIsAccepted(tid: uint64, sid: uint64, cid: uint64, fsid: uint64, b: Body)
    ensures var m := Message(tid, sid, cid, fsid, b);
            && Transmit(FAP, m) == (if ReadableBody(b) then Some(m) else None)
            && Accepts(m)
  {
    var m := Message(tid, sid, cid, fsid, b);
    Transmitted(FAP, m);
    BodyReadable(b);
    ContentOfOpen(m.sections);
    BuiltShape(b);
  }

  lemma BuiltShape(b: Body)
    ensures Shape(KindOf(b), SectionsOf(b)) == Some(Tags(SectionsOf(b)))
  {
    var s := SectionsOf(b);
    match b {
      case Files(files) =>
        assert Tags(s) == [TInteger, TInteger] + Repeat(TFile, |files|);
      case _ =>
        assert Tags(s) == Shape(KindOf(b), s).value;
    }
  }

  lemma AcceptedEntries(m: Msg)
    requires Accepts(m)
    ensures var s, shape := Content(m.sections), Shape(m.kind, Content(m.sections)).value;
            |s| == |shape| && forall i :: 0 <= i < |s| ==> TagOf(s[i]) == shape[i]
  {
    var s := Content(m.sections);
    assert forall i :: 0 <= i < |s| ==> TagOf(s[i]) == Tags(s)[i];
  }

  // ---- The file server's dispatch -----------------------------------------------------------------

  /** The 16-bit variable that the command number is copied to before the switch. */
  function Narrowed(cmd: int32): uint16 {
    ToWord(cmd) % 0x1_0000
  }

  /** What the switch of the file server hands to a handler: the commands it serves, with the arguments
      read through the section accessors. Other accepted messages are ignored. */
  function Dispatch(m: Msg): (b: Option<Body>)
    requires Accepts(m)
    ensures b.Some? ==> KindOf(b.value) == m.kind
  {
    var s := Content(m.sections);
    AcceptedEntries(m);
    if m.kind == FAP_QUIT then Some(Quit)
    else if m.kind != FAP_COMMAND then None
    else match Narrowed(s[0].value)
      case 1 => Some(CmdCreate(s[1].data, s[2].value))
      case 5 => Some(CmdRead(s[1].data, s[2].value, s[3].value))
      case 6 => Some(CmdWrite(s[1].data, s[2].value))
      case 10 => Some(CmdList(s[1].value, s[2].data))
      case _ => None
  }

  /** Narrowing the command number of an accepted command loses nothing. */
  lemma NarrowingIsLossless(m: Msg)
    requires Accepts(m) && m.kind == FAP_COMMAND
    ensures Content(m.sections) != [] && Content(m.sections)[0].Integer?
    ensures Narrowed(Content(m.sections)[0].value) == Content(m.sections)[0].value
    ensures 1 <= Content(m.sections)[0].value <= 10
  {
    AcceptedEntries(m);
  }

  /** A dispatched command is the one that was sent: its sections are those of the payload. */
  lemma DispatchReadsAll(m: Msg)
    requires Accepts(m) && Dispatch(m).Some?
    ensures SectionsOf(Dispatch(m).value) == Content(m.sections)
  {
    AcceptedEntries(m);
    hide Content, Accepts, Shape, TagOf;
  }

  /** The dispatcher gets the command that the client built. */
  lemma DispatchOfBuilt(tid: uint64, sid: uint64, cid: uint64, fsid: uint64, b: Body)
    ensures var m := Message(tid, sid, cid, fsid, b);
            Accepts(m) && Dispatch(m) == if KindOf(b) in {FAP_QUIT, FAP_COMMAND} then Some(b) else None
  {
    BuiltShape(b);
    ContentOfOpen(SectionsOf(b));
    var m := Message(tid, sid, cid, fsid, b);
    assert Accepts(m);
    if KindOf(b) == FAP_COMMAND {
      DispatchReadsAll(m);
      NarrowingIsLossless(m);
      CommandsInjective(b, Dispatch(m).value);
    }
  }

  lemma CommandsInjective(a: Body, b: Body)
    requires KindOf(a) == KindOf(b) == FAP_COMMAND && SectionsOf(a) == SectionsOf(b)
    ensures a == b
  {
    var s, t := SectionsOf(a), SectionsOf(b);
    assert s[0] == t[0] && s[1] == t[1] && s[2] == t[2];
    assert |s| == 4 ==> s[3] == t[3];
  }

  // ---- Response check -----------------------------------------------------------------------------

  predicate IdMatches(expected: uint64, id: uint64) {
    expected == 0 || id == expected
  }

  function AnswerKind(request: uint16): Option<uint16> {
    match request
    case 1 => Some(FAP_HELLO_RESPONSE)
    case 3 => Some(FAP_RESPONSE)
    case 5 => Some(FAP_RESPONSE)
    case _ => None
  }

  function CheckResponse(m: Option<Msg>, tid: uint64, sid: uint64, cid: uint64, fsid: uint64, request: uint16): (r: int)
    requires m.Some? ==> Headed(FAP, m.value)
    ensures -7 <= r <= 0
    ensures r != -1 ==> m.Some?
  {
    if m.None? then -1
    else if !IdMatches(tid, m.value.tid) then -2
    else if !IdMatches(sid, m.value.ids[0]) then -3
    else if !IdMatches(cid, m.value.ids[1]) then -4
    else if !IdMatches(fsid, m.value.ids[2]) then -5
    else if m.value.kind == FAP_ERROR then -6
    else if request == 0 then 0
    else match AnswerKind(request)
      case None => 0
      case Some(k) => if m.value.kind == k then 0 else -7
  }

  /** The code names the first of the checks that fails. */
  lemma CodeNames(m: Msg, tid: uint64, sid: uint64, cid: uint64, fsid: uint64, request: uint16)
    requires Headed(FAP, m)
    ensures var r := CheckResponse(Some(m), tid, sid, cid, fsid, request);
            && (r == -2 <==> tid != 0 && m.tid != tid)
            && (r == -3 <==> r != -2 && sid != 0 && m.ids[0] != sid)
            && (r == -4 <==> r !in {-2, -3} && cid != 0 && m.ids[1] != cid)
            && (r == -5 <==> r !in {-2, -3, -4} && fsid != 0 && m.ids[2] != fsid)
            && (r == -6 <==> r !in {-2, -3, -4, -5} && m.kind == 8)
  {
  }

  // ---- Responses and their payload ----------------------------------------------------------------

  /** The payload of an accepted response to a command or a hello. */
  function ReplyOf(m: Msg): (b: Body)
    requires Accepts(m) && m.kind in {FAP_RESPONSE, FAP_HELLO_RESPONSE}
    ensures KindOf(b) == m.kind
  {
    var s := Content(m.sections);
    AcceptedEntries(m);
    if m.kind == FAP_HELLO_RESPONSE then HelloResponse(s[0].data, s[1].value)
    else match s[0].value
      case 1 => Ok
      case 2 => Files(FilesIn(s[2..]))
      case 3 => DataOut(s[1].value)
  }

  lemma ReplyOfSections(m: Msg)
    requires Accepts(m) && m.kind in {FAP_RESPONSE, FAP_HELLO_RESPONSE}
    ensures var s := Content(m.sections);
            && s != []
            && SectionsOf(ReplyOf(m)) ==
                 if ReplyOf(m).Files? && IntegerAt(s, 1) < 0 then [Integer(RESP_FILEINFO), Integer(0)] else s
  {
    var s := Content(m.sections);
    AcceptedEntries(m);
    if ReplyOf(m).Files? {
      var files := FilesIn(s[2..]);
      assert s == [s[0], s[1]] + s[2..];
      assert |files| == if s[1].value < 0 then 0 else s[1].value;
      assert s[1].value < 0 ==> FileSections(files) == [];
    }
  }

  /** An id that is left open stands for whatever came. */
  function Expected(expected: uint64, id: uint64): uint64 {
    if expected == 0 then id else expected
  }

  /** The message that the program builds to answer the request with b; an empty list may also be announced by a
      negative count. */
  predicate IsReply(m: Msg, tid: uint64, sid: uint64, cid: uint64, fsid: uint64, request: uint16, b: Body)
    requires Headed(FAP, m)
  {
    var built := Message(Expected(tid, m.tid), Expected(sid, m.ids[0]), Expected(cid, m.ids[1]),
                         Expected(fsid, m.ids[2]), b);
    && AnswerKind(request) == Some(KindOf(b))
    && (|| m == built
        || (b == Files([]) && IntegerAt(m.sections, 1) < 0
            && m == built.(sections := [Integer(RESP_FILEINFO), Integer(IntegerAt(m.sections, 1))])))
  }

  lemma NegativeCountAccepted(m: Msg)
    requires m.kind == FAP_RESPONSE && IntegerAt(m.sections, 1) < 0
    requires m.sections == [Integer(RESP_FILEINFO), Integer(IntegerAt(m.sections, 1))]
    ensures Accepts(m)
  {
    ContentOfOpen(m.sections);
    assert Tags(m.sections) == [TInteger, TInteger];
    assert [TInteger, TInteger] + Repeat(TFile, IntegerAt(m.sections, 1)) == [TInteger, TInteger];
  }

  lemma PassedIsReply(m: Msg, tid: uint64, sid: uint64, cid: uint64, fsid: uint64, request: uint16)
    requires Headed(FAP, m) && Open(m) && AnswerKind(request).Some?
    requires CheckResponse(Some(m), tid, sid, cid, fsid, request) == 0 && Accepts(m)
    ensures m.kind in {FAP_RESPONSE, FAP_HELLO_RESPONSE} && IsReply(m, tid, sid, cid, fsid, request, ReplyOf(m))
  {
    ReplyOfSections(m);
    ContentOfOpen(m.sections);
    assert m.ids == [Expected(sid, m.ids[0]), Expected(cid, m.ids[1]), Expected(fsid, m.ids[2])];
    if ReplyOf(m).Files? && IntegerAt(m.sections, 1) < 0 {
      AcceptedEntries(m);
      assert m.sections == [Integer(RESP_FILEINFO), Integer(IntegerAt(m.sections, 1))];
      assert |SectionsOf(ReplyOf(m))| == 2;
    }
  }

  /** What passes both checks that follow a request is exactly what the program builds to answer it. */
  lemma PassesIffReply(m: Msg, tid: uint64, sid: uint64, cid: uint64, fsid: uint64, request: uint16)
    requires Headed(FAP, m) && Open(m) && AnswerKind(request).Some?
    ensures CheckResponse(Some(m), tid, sid, cid, fsid, request) == 0 && Accepts(m)
            <==> exists b :: IsReply(m, tid, sid, cid, fsid, request, b)
  {
    if CheckResponse(Some(m), tid, sid, cid, fsid, request) == 0 && Accepts(m) {
      PassedIsReply(m, tid, sid, cid, fsid, request);
    }
    if b :| IsReply(m, tid, sid, cid, fsid, request, b) {
      if m.sections == SectionsOf(b) {
        BuiltShape(b);
        ContentOfOpen(m.sections);
      } else {
        NegativeCountAccepted(m);
      }
    }
  }
}
