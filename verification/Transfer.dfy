/** Moving file contents: the counted receive loop (src/netutil.c), writing over a local file, and the copy
    step between file servers (src/fctp.c). */
module Transfer {
  import opened Wrappers
  import opened Bytes
  import opened Messages
  import opened Codec
  import opened Sections
  import opened Paths

  // ---- Receiving a counted number of bytes -------------------------------------------------------

  const RECVBUFSIZE := 1024

  /** What successive reads deliver: each piece is nonempty and fits the buffer. */
  predicate Chunks(chunks: seq<bytes>) {
    forall i :: 0 <= i < |chunks| ==> 0 < |chunks[i]| <= RECVBUFSIZE
  }

  function Joined(chunks: seq<bytes>): bytes {
    if chunks == [] then [] else Joined(chunks[..|chunks| - 1]) + chunks[|chunks| - 1]
  }

  /** Some number of pieces adds up to the count exactly. */
  predicate Reaches(chunks: seq<bytes>, len: int) {
    exists k :: 0 <= k <= |chunks| && |Joined(chunks[..k])| == len
  }

  predicate IsPrefixOf(data: bytes, chunks: seq<bytes>) {
    exists k :: 0 <= k <= |chunks| && data == Joined(chunks[..k])
  }

  /** What the counted loop takes off the pieces and what it leaves; None when they run out first. */
  function ReceivedFrom(chunks: seq<bytes>, len: int): (r: Option<(bytes, seq<bytes>)>)
    ensures r.Some? ==> |r.value.0| == len
  {
    if len == 0 then Some(([], chunks))
    else if chunks == [] then None
    else
      match ReceivedFrom(chunks[1..], len - |chunks[0]|)
      case None => None
      case Some((d, rest)) => Some((chunks[0] + d, rest))
  }

  /** recvfile: reads and writes until the count is used up exactly; it stays blocked (here: returns false) when
      the pieces run out first. What is not read stays on the connection. */
  method RecvFile(chunks: seq<bytes>, len: int32) returns (done: bool, written: bytes, rest: seq<bytes>)
    requires Chunks(chunks)
    ensures ReceivedFrom(chunks, len) == if done then Some((written, rest)) else None
    ensures done <==> Reaches(chunks, len)
    ensures done ==> |written| == len && IsPrefixOf(written, chunks) && Joined(chunks) == written + Joined(rest)
  {
    var left: int := len;
    written, rest := [], chunks;
    ReceivedFromIs(chunks, len);
    BehindNothing(ReceivedFrom(chunks, len));
    while left != 0
      invariant ReceivedFrom(chunks, len) == Behind(written, ReceivedFrom(rest, left))
      decreases |rest|
    {
      if rest == [] {
        return false, written, rest;
      }
      BehindStep(written, rest, left);
      left := left - |rest[0]|;
      written, rest := written + rest[0], rest[1..];
    }
    done := true;
    assert written + [] == written;
  }

  lemma BehindNothing(r: Option<(bytes, seq<bytes>)>)
    ensures Behind([], r) == r
  {
    if r.Some? {
      assert [] + r.value.0 == r.value.0;
    }
  }

  function Behind(written: bytes, r: Option<(bytes, seq<bytes>)>): Option<(bytes, seq<bytes>)> {
    match r
    case None => None
    case Some((d, rest)) => Some((written + d, rest))
  }

  lemma BehindStep(written: bytes, chunks: seq<bytes>, left: int)
    requires left != 0 && chunks != []
    ensures Behind(written, ReceivedFrom(chunks, left))
         == Behind(written + chunks[0], ReceivedFrom(chunks[1..], left - |chunks[0]|))
  {
    match ReceivedFrom(chunks[1..], left - |chunks[0]|)
    case None =>
    case Some((d, rest)) => Associate(written, chunks[0], d);
  }

  lemma JoinedTake(chunks: seq<bytes>, k: nat)
    requires 0 < k <= |chunks|
    ensures Joined(chunks[..k]) == chunks[0] + Joined(chunks[1..][..k - 1])
  {
    JoinedFirst(chunks[..k]);
    assert chunks[..k][1..] == chunks[1..][..k - 1];
  }

  lemma ReachesStep(chunks: seq<bytes>, len: int)
    requires len != 0 && chunks != []
    ensures Reaches(chunks, len) <==> Reaches(chunks[1..], len - |chunks[0]|)
  {
    if Reaches(chunks, len) {
      var k :| 0 <= k <= |chunks| && |Joined(chunks[..k])| == len;
      JoinedTake(chunks, k);
      assert |Joined(chunks[1..][..k - 1])| == len - |chunks[0]|;
    }
    if Reaches(chunks[1..], len - |chunks[0]|) {
      var k :| 0 <= k <= |chunks| - 1 && |Joined(chunks[1..][..k])| == len - |chunks[0]|;
      JoinedTake(chunks, k + 1);
      assert |Joined(chunks[..k + 1])| == len;
    }
  }

  /** The loop ends exactly when some pieces add up to the count, with these pieces in order, and the rest left. */
  lemma {:induction false} ReceivedFromIs(chunks: seq<bytes>, len: int)
    ensures var r := ReceivedFrom(chunks, len);
            && (r.Some? <==> Reaches(chunks, len))
            && (r.Some? ==> IsPrefixOf(r.value.0, chunks) && Joined(chunks) == r.value.0 + Joined(r.value.1))
  {
    if len == 0 {
      assert Joined(chunks[..0]) == [];
    } else if chunks != [] {
      ReceivedFromIs(chunks[1..], len - |chunks[0]|);
      ReachesStep(chunks, len);
      match ReceivedFrom(chunks[1..], len - |chunks[0]|)
      case None =>
      case Some((d, rest)) =>
        var k :| 0 <= k <= |chunks| - 1 && d == Joined(chunks[1..][..k]);
        JoinedTake(chunks, k + 1);
        assert chunks[0] + d == Joined(chunks[..k + 1]);
        JoinedFirst(chunks);
        Associate(chunks[0], d, Joined(rest));
    }
  }

  lemma {:induction false} JoinedFirst(chunks: seq<bytes>)
    requires chunks != []
    ensures Joined(chunks) == chunks[0] + Joined(chunks[1..])
  {
    var front, last := chunks[..|chunks| - 1], chunks[|chunks| - 1];
    if front == [] {
      assert chunks[1..] == [];
      assert [] + chunks[0] == chunks[0] + [];
    } else {
      JoinedFirst(front);
      assert front[0] == chunks[0];
      assert chunks[1..][..|chunks| - 2] == front[1..];
      Associate(chunks[0], Joined(front[1..]), last);
    }
  }

  lemma {:induction false} JoinedGrows(chunks: seq<bytes>, k: nat)
    requires Chunks(chunks) && k < |chunks|
    ensures |Joined(chunks[..k])| < |Joined(chunks)|
    decreases |chunks|
  {
    var front := chunks[..|chunks| - 1];
    if k < |front| {
      JoinedGrows(front, k);
      assert front[..k] == chunks[..k];
    } else {
      assert chunks[..k] == front;
    }
  }

  /** For any chunking of a stream of exactly len bytes the loop ends, having copied every byte in order. */
  lemma ExactStreamIsCopied(chunks: seq<bytes>, written: bytes)
    requires Chunks(chunks) && IsPrefixOf(written, chunks) && |written| == |Joined(chunks)|
    ensures Reaches(chunks, |Joined(chunks)|) && written == Joined(chunks)
  {
    var k :| 0 <= k <= |chunks| && written == Joined(chunks[..k]);
    if k < |chunks| {
      JoinedGrows(chunks, k);
    } else {
      assert chunks[..k] == chunks;
    }
  }

  lemma ExactStreamReaches(chunks: seq<bytes>)
    ensures Reaches(chunks, |Joined(chunks)|)
  {
    assert chunks[..|chunks|] == chunks;
  }

  // ---- Local files -------------------------------------------------------------------------------

  /** A file server's local files, by the components of their path below the data directory. */
  type Store = map<seq<bytes>, blob>

  /** Writing from the start of a file that is not truncated. */
  function Overlay(data: blob, before: blob): (r: blob)
    ensures |r| == if |data| < |before| then |before| else |data|
    ensures data <= r
    ensures forall i :: |data| <= i < |before| ==> r[i] == before[i]
  {
    data + if |data| < |before| then before[|data|..] else []
  }

  function Contents(s: Store, q: seq<bytes>): blob {
    if q in s then s[q] else []
  }

  /** open(O_CREAT) and write of data. */
  function Written(s: Store, q: seq<bytes>, data: blob): Store {
    s[q := Overlay(data, Contents(s, q))]
  }

  /** Making a file that is there leaves it as it is, and one that is not there comes out empty. */
  lemma MadeFile(files: Store, q: seq<bytes>)
    ensures Written(files, q, []) == files[q := if q in files then files[q] else []]
  {
    assert Overlay([], Contents(files, q)) == Contents(files, q);
  }

  lemma NewFile(files: Store, q: seq<bytes>, d: blob)
    requires q !in files
    ensures Written(files, q, d) == files[q := d]
  {
    assert Overlay(d, []) == d;
  }

  predicate SameFile(a: Store, b: Store, q: seq<bytes>) {
    (q in a <==> q in b) && (q in a ==> a[q] == b[q])
  }

  // ---- The copy step between file servers ----------------------------------------------------------

  function FctpMessage(tid: uint64, sid: uint64, fsid: uint64, kind: uint16, sections: seq<Section>): (m: Msg)
    ensures Headed(FCTP, m)
  {
    Msg(tid, [sid, fsid], kind, sections)
  }

  /** fctp_server for one connection: the request that arrived against the local files. There is no answer to a
      message that is not a download with a path. */
  function FctpServe(s: Store, sid: uint64, fsid: uint64, request: Option<Msg>): Option<Msg> {
    if request.None? || request.value.kind != FCTP_DOWNLOAD then None
    else if request.value.sections == [] || !request.value.sections[0].Text? then None
    else
      var q := Tokens(CString(request.value.sections[0].data));
      var tid := request.value.tid;
      if q in s then Some(FctpMessage(tid, sid, fsid, FCTP_OK, [Binary(s[q])]))
      else Some(FctpMessage(tid, sid, fsid, FCTP_ERROR,
                            [Integer(ERR_FILENOTFOUND), Text(Ascii("no local file found"))]))
  }

  function Download(tid: uint64, sid: uint64, fsid: uint64, path: blob): Msg {
    FctpMessage(tid, sid, fsid, FCTP_DOWNLOAD, [Text(path)])
  }

  /** What fctp_get_file takes out of the answer. */
  function FctpContents(m: Msg): Option<blob> {
    if m.kind == FCTP_OK && m.sections != [] && m.sections[0].Binary? then Some(m.sections[0].data) else None
  }

  /** fctp_get_file: ask, and take the contents out of an OK answer. */
  function FctpGet(s: Store, tid: uint64, sid: uint64, theirs: uint64, fsid: uint64, path: blob): Option<blob> {
    var answer :- FctpServe(s, theirs, fsid, Transmit(FCTP, Download(tid, sid, fsid, path)));
    var m :- Transmit(FCTP, answer);
    FctpContents(m)
  }

  lemma FctpAnswer(s: Store, tid: uint64, sid: uint64, theirs: uint64, fsid: uint64, path: blob)
    requires 0 !in path
    ensures var answer := FctpServe(s, theirs, fsid, Some(Download(tid, sid, fsid, path)));
            && answer.Some? && Headed(FCTP, answer.value) && Open(answer.value) && AllReadable(answer.value.sections)
            && FctpContents(answer.value) == if Tokens(path) in s then Some(s[Tokens(path)]) else None
  {
    hide Tokens, CString, Ascii;
    CStringOfText(path);
  }

  /** A download is answered under its own transaction with the whole file, or with error 1. */
  lemma DownloadAnswered(s: Store, tid: uint64, sid: uint64, theirs: uint64, fsid: uint64, path: blob)
    requires 0 !in path
    ensures FctpServe(s, theirs, fsid, Transmit(FCTP, Download(tid, sid, fsid, path))) ==
              Some(if Tokens(path) in s then Msg(tid, [theirs, fsid], 2, [Binary(s[Tokens(path)])])
                   else Msg(tid, [theirs, fsid], 3, [Integer(1), Text(Ascii("no local file found"))]))
  {
    hide Tokens, CString, Ascii;
    Transmitted(FCTP, Download(tid, sid, fsid, path));
    CStringOfText(path);
  }

  /** Through both encodings, the copy step delivers exactly the other server's file, and fails exactly when it
      has none. */
  lemma FctpDeliversFile(s: Store, tid: uint64, sid: uint64, theirs: uint64, fsid: uint64, path: blob)
    requires 0 !in path
    ensures FctpGet(s, tid, sid, theirs, fsid, path) ==
            if Tokens(path) in s then Some(s[Tokens(path)]) else None
  {
    Transmitted(FCTP, Download(tid, sid, fsid, path));
    FctpAnswer(s, tid, sid, theirs, fsid, path);
    var answer := FctpServe(s, theirs, fsid, Some(Download(tid, sid, fsid, path))).value;
    Transmitted(FCTP, answer);
  }
}
