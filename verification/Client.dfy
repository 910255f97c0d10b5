/** The client's side of the exchanges (src/fap.c) step by step: the checks on an answer, and then section accesses that
    rely on more than was checked. Each operation is given an answer for which its accesses are good. */
module Client {
  import opened Wrappers
  import opened Bytes
  import opened Messages
  import opened Codec
  import opened Sections
  import opened Wire
  import opened Transfer
  import opened Answers
  import opened FileServers
  import Fap

  /** The two checks that every operation makes. */
  method Check(x: Session, bs: bytes) returns (msg: Fsmsg?, ret: int)
    ensures msg != null ==>
              fresh(msg) && fresh(msg.sections) && msg.Valid() && Headed(FAP, msg.View()) && Open(msg.View())
    ensures ViewOf(msg) == Parsed(FAP, bs)
    ensures ret == if GoodReply(x, Parsed(FAP, bs)) then 0 else Refused(x, Parsed(FAP, bs))
    ensures ret < 0 || msg != null
  {
    hide Fap.Accepts;
    msg := Receive(FAP, bs);
    ret := Fap.CheckResponse(ViewOf(msg), x.tid, x.sid, x.cid, x.fsid, FAP_COMMAND);
    if ret == 0 {
      ret := Fap.ValidateSections(msg.View());
    }
  }

  /** The loop of fap_list: as many file infos are copied as the count says. */
  method CopyFiles(msg: Fsmsg) returns (r: Listing)
    requires msg.Valid() && |msg.Listed()| >= 2 && msg.Listed()[1].Integer?
    requires |msg.Listed()| >= 2 + msg.Listed()[1].value
    requires forall i :: 2 <= i < 2 + msg.Listed()[1].value ==> msg.Listed()[i].File?
    ensures r.count == msg.Listed()[1].value
    ensures FileSections(r.files) == msg.Listed()[2..2 + if r.count < 0 then 0 else r.count]
  {
    ghost var s := msg.Listed();
    var count := msg.sections[1].value.value;
    var files: seq<FileInfo> := [];
    var i := 0;
    while i < count
      invariant 0 <= i && (i <= count || i == 0) && FileSections(files) == s[2..2 + i]
    {
      assert msg.sections[i + 2].value == s[i + 2];
      files := files + [msg.sections[i + 2].value.info];
      assert s[2..2 + (i + 1)] == s[2..2 + i] + [s[i + 2]];
      i := i + 1;
    }
    r := Listing(count, files);
  }

  /** fap_list, once the answer has come. */
  method FapList(x: Session, bs: bytes) returns (r: Outcome<Listing>)
    requires ListInRange(x, Parsed(FAP, bs))
    ensures r == ListResult(x, Parsed(FAP, bs))
  {
    hide GoodReply, Refused, ListInRange;
    ListMissingIff(x, Parsed(FAP, bs));
    var msg, ret := Check(x, bs);
    if ret < 0 {
      RefusedIsNegative(x, Parsed(FAP, bs));
      return Error(ret);
    }
    RefusedIsNegative(x, Parsed(FAP, bs));
    ContentOfOpen(msg.Listed());
    var listing := CopyFiles(msg);
    FileSectionsInjective(listing.files, ListResult(x, Parsed(FAP, bs)).value.files);
    r := Done(listing);
  }

  lemma RefusedIsNegative(x: Session, m: Option<Msg>)
    requires m.Some? ==> Headed(FAP, m.value)
    ensures Refused(x, m) < 0
  {
  }

  /** fap_create, once the answer has come. */
  method FapCreate(x: Session, bs: bytes) returns (r: Outcome<int>)
    requires SecondInRange(x, Parsed(FAP, bs))
    ensures r == CreateResult(x, Parsed(FAP, bs))
  {
    hide GoodReply, Refused, SecondInRange;
    SecondMissingIff(x, Parsed(FAP, bs));
    RefusedIsNegative(x, Parsed(FAP, bs));
    var msg, ret := Check(x, bs);
    if ret < 0 {
      return Error(ret);
    }
    ContentOfOpen(msg.Listed());
    r := Done(if msg.sections[1].value.value != RESP_OK then -1 else 0);
  }

  /** fap_write_file, once the answer has come. */
  method FapWriteFile(x: Session, bs: bytes) returns (r: Outcome<int>)
    ensures r == WriteResult(x, Parsed(FAP, bs))
  {
    hide GoodReply, Refused;
    SecondMissingIff(x, Parsed(FAP, bs));
    RefusedIsNegative(x, Parsed(FAP, bs));
    var msg, ret := Check(x, bs);
    if ret < 0 {
      return Error(ret);
    }
    ContentOfOpen(msg.Listed());
    r := Done(if msg.sections[0].value.value != RESP_OK then -1 else 0);
  }

  /** fap_read_file, once the answer has come: the announced number of bytes is received from the data connection;
      Silent while they have not all come. */
  method FapReadFile(x: Session, bs: bytes, data: seq<bytes>) returns (r: Outcome<bytes>)
    requires SecondInRange(x, Parsed(FAP, bs)) && Chunks(data)
    ensures match ReadCount(x, Parsed(FAP, bs))
            case Error(code) => r == Error(code)
            case Done(n) =>
              && (r.Done? <==> Reaches(data, n)) && (!r.Done? ==> r == Silent)
              && (r.Done? ==> |r.value| == n && IsPrefixOf(r.value, data))
            case _ => false
  {
    hide GoodReply, Refused, SecondInRange;
    SecondMissingIff(x, Parsed(FAP, bs));
    RefusedIsNegative(x, Parsed(FAP, bs));
    var msg, ret := Check(x, bs);
    if ret < 0 {
      return Error(ret);
    }
    ContentOfOpen(msg.Listed());
    var done, written, rest := RecvFile(data, msg.sections[1].value.value);
    r := if done then Done(written) else Silent;
  }
}
