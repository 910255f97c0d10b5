/** What the client operations of src/fap.c make of an answer: the checks, and then section accesses that rely on more
    than was checked. An access to a section that is not there, or of another type, is an outcome of its own. */
module Answers {
  import opened Wrappers
  import opened Bytes
  import opened Messages
  import opened Codec
  import opened Sections
  import Fap

  /** The ids of one client session, and the transaction ids of the client's and the server's request. */
  datatype Session = Session(sid: uint64, cid: uint64, fsid: uint64, tid: uint64, dirTid: uint64)

  /** How an operation ends: no answer comes, it is given up with a code, it accesses a missing section, or it is
      done. */
  datatype Outcome<T> = Silent | Error(code: int) | Missing | Done(value: T)

  /** A response that the client goes on with. */
  predicate GoodReply(x: Session, m: Option<Msg>)
    requires m.Some? ==> Headed(FAP, m.value)
  {
    Fap.CheckResponse(m, x.tid, x.sid, x.cid, x.fsid, FAP_COMMAND) == 0 && Fap.Accepts(m.value)
  }

  lemma NothingPasses(x: Session)
    ensures !GoodReply(x, None)
  {
  }

  /** The code that an operation returns when it does not go on. */
  function Refused(x: Session, m: Option<Msg>): int
    requires m.Some? ==> Headed(FAP, m.value)
  {
    var ret := Fap.CheckResponse(m, x.tid, x.sid, x.cid, x.fsid, FAP_COMMAND);
    if ret < 0 then ret else -1
  }

  /** SECI: the integer of a section, if it is there and is one. */
  function SecI(s: seq<Section>, k: nat): Option<int32> {
    if k < |s| && s[k].Integer? then Some(s[k].value) else None
  }

  // ---- The accesses of each operation --------------------------------------------------------------

  /** fap_list returns the count as it came, and one entry for each turn of its loop. */
  datatype Listing = Listing(count: int32, files: seq<FileInfo>)

  function ListResult(x: Session, m: Option<Msg>): Outcome<Listing>
    requires m.Some? ==> Headed(FAP, m.value)
  {
    if !GoodReply(x, m) then Error(Refused(x, m))
    else
      var s := Content(m.value.sections);
      match SecI(s, 1)
      case None => Missing
      case Some(count) =>
        var n := if count < 0 then 0 else count;
        if |s| < 2 + n || exists i :: 2 <= i < 2 + n && !s[i].File? then Missing
        else Done(Listing(count, FilesIn(s[2..2 + n])))
  }

  /** fap_create compares section 1 with the number of the OK response. */
  function CreateResult(x: Session, m: Option<Msg>): Outcome<int>
    requires m.Some? ==> Headed(FAP, m.value)
  {
    if !GoodReply(x, m) then Error(Refused(x, m))
    else match SecI(Content(m.value.sections), 1)
      case None => Missing
      case Some(n) => Done(if n == RESP_OK then 0 else -1)
  }

  /** fap_write_file compares section 0 with it. */
  function WriteResult(x: Session, m: Option<Msg>): Outcome<int>
    requires m.Some? ==> Headed(FAP, m.value)
  {
    if !GoodReply(x, m) then Error(Refused(x, m))
    else match SecI(Content(m.value.sections), 0)
      case None => Missing
      case Some(n) => Done(if n == RESP_OK then 0 else -1)
  }

  /** fap_read_file takes the number of bytes to receive from section 1. */
  function ReadCount(x: Session, m: Option<Msg>): Outcome<int32>
    requires m.Some? ==> Headed(FAP, m.value)
  {
    if !GoodReply(x, m) then Error(Refused(x, m))
    else match SecI(Content(m.value.sections), 1)
      case None => Missing
      case Some(n) => Done(n)
  }

  // ---- When the accesses are good --------------------------------------------------------------------

  /** A response that passes is an OK, a list of files or a data announcement, with the sections of its payload. */
  lemma GoodReplySections(x: Session, m: Msg)
    requires Headed(FAP, m) && GoodReply(x, Some(m))
    ensures m.kind == FAP_RESPONSE && Fap.Accepts(m)
    ensures var s, b := Content(m.sections), Fap.ReplyOf(m);
            && s != [] && s[0].Integer? && s[0].value in {RESP_OK, RESP_FILEINFO, RESP_DATAOUT}
            && (s[0].value == RESP_OK <==> b.Ok?) && (s[0].value == RESP_FILEINFO <==> b.Files?)
            && (b.Ok? ==> |s| == 1)
            && (!b.Ok? ==> |s| >= 2 && s[1].Integer?)
            && (b.DataOut? ==> |s| == 2)
            && (b.Files? ==> |s| == 2 + (if s[1].value < 0 then 0 else s[1].value)
                             && forall i :: 2 <= i < |s| ==> s[i].File?)
  {
    Fap.AcceptedEntries(m);
  }

  /** If the client goes on, the response is a list of files, or a data announcement of no bytes. */
  predicate ListInRange(x: Session, m: Option<Msg>)
    requires m.Some? ==> Headed(FAP, m.value)
  {
    GoodReply(x, m) ==>
      (GoodReplySections(x, m.value);
       var b := Fap.ReplyOf(m.value);
       b.Files? || (b.DataOut? && b.length <= 0))
  }

  /** If the client goes on, the response is not an OK. */
  predicate SecondInRange(x: Session, m: Option<Msg>)
    requires m.Some? ==> Headed(FAP, m.value)
  {
    GoodReply(x, m) ==>
      (GoodReplySections(x, m.value);
       !Fap.ReplyOf(m.value).Ok?)
  }

  /** The accesses of fap_list are all in range and of the right type exactly under this condition. */
  lemma ListMissingIff(x: Session, m: Option<Msg>)
    requires m.Some? ==> Headed(FAP, m.value)
    ensures ListResult(x, m) == Missing <==> !ListInRange(x, m)
  {
    if GoodReply(x, m) {
      GoodReplySections(x, m.value);
    }
  }

  /** Those of fap_create and fap_read_file are exactly under that one; that of fap_write_file always is. */
  lemma SecondMissingIff(x: Session, m: Option<Msg>)
    requires m.Some? ==> Headed(FAP, m.value)
    ensures CreateResult(x, m) == Missing <==> !SecondInRange(x, m)
    ensures ReadCount(x, m) == Missing <==> !SecondInRange(x, m)
    ensures WriteResult(x, m) != Missing
  {
    if GoodReply(x, m) {
      GoodReplySections(x, m.value);
    }
  }

  lemma BuiltPasses(x: Session, b: Fap.Body)
    requires Fap.KindOf(b) == FAP_RESPONSE && Fap.ReadableBody(b)
    ensures var m := Fap.Message(x.tid, x.sid, x.cid, x.fsid, b);
            && Transmit(FAP, m) == Some(m) && Content(m.sections) == Fap.SectionsOf(b)
            && Fap.Accepts(m) && GoodReply(x, Some(m))
  {
    hide Transmit, Fap.Accepts;
    Fap.BuiltIsAccepted(x.tid, x.sid, x.cid, x.fsid, b);
    ContentOfOpen(Fap.SectionsOf(b));
  }

  /** What the operations return for each response that the program builds: a write for an OK only, and a creation for a
      list of exactly one file, or an announcement of exactly one byte. */
  lemma BuiltResults(x: Session, b: Fap.Body)
    requires Fap.KindOf(b) == FAP_RESPONSE && Fap.ReadableBody(b)
    ensures var m := Transmit(FAP, Fap.Message(x.tid, x.sid, x.cid, x.fsid, b));
            && WriteResult(x, m) == Done(if b.Ok? then 0 else -1)
            && (b.Files? ==> CreateResult(x, m) == Done(if |b.files| == 1 then 0 else -1))
            && (b.DataOut? ==> CreateResult(x, m) == Done(if b.length == 1 then 0 else -1))
            && (b.DataOut? ==> ReadCount(x, m) == Done(b.length))
  {
    hide Transmit, GoodReply, Content;
    BuiltPasses(x, b);
  }

  /** Concretely: an OK arrives, passes the check and the validator, and has no section 1. */
  lemma OkIsMissing(x: Session)
    ensures var m := Transmit(FAP, Fap.Message(x.tid, x.sid, x.cid, x.fsid, Fap.Ok));
            && m.Some? && GoodReply(x, m)
            && ListResult(x, m) == Missing && CreateResult(x, m) == Missing && ReadCount(x, m) == Missing
  {
    hide Transmit, GoodReply;
    BuiltPasses(x, Fap.Ok);
  }

  /** Concretely: an announcement of five bytes arrives and passes as well, and fap_list looks for five entries. */
  lemma DataOutIsMissing(x: Session)
    ensures var m := Transmit(FAP, Fap.Message(x.tid, x.sid, x.cid, x.fsid, Fap.DataOut(5)));
            m.Some? && GoodReply(x, m) && ListResult(x, m) == Missing
  {
    hide Transmit, GoodReply;
    BuiltPasses(x, Fap.DataOut(5));
  }

  /** Concretely: a list with a negative count passes too, and fap_list returns the negative number. */
  lemma NegativeListing(x: Session)
    ensures var m := Msg(x.tid, [x.sid, x.cid, x.fsid], FAP_RESPONSE, [Integer(RESP_FILEINFO), Integer(-3)]);
            Transmit(FAP, m) == Some(m) && ListResult(x, Some(m)) == Done(Listing(-3, []))
  {
    hide Transmit, GoodReply;
    var m := Msg(x.tid, [x.sid, x.cid, x.fsid], FAP_RESPONSE, [Integer(RESP_FILEINFO), Integer(-3)]);
    Transmitted(FAP, m);
    NegativeCountPasses(x, m);
    ContentOfOpen(m.sections);
  }

  lemma NegativeCountPasses(x: Session, m: Msg)
    requires m == Msg(x.tid, [x.sid, x.cid, x.fsid], FAP_RESPONSE, [Integer(RESP_FILEINFO), Integer(-3)])
    ensures GoodReply(x, Some(m))
  {
    Fap.NegativeCountAccepted(m);
  }
}
