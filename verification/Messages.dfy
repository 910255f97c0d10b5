/** The message structures of src/protomsg.h and the type numbers of the three protocols. */
module Messages {
  import opened Bytes

  /** Data whose length fits the 32-bit length field of a section. */
  type blob = d: seq<byte> | |d| < 0x1_0000_0000

  datatype Protocol = FAP | DCP | FCTP

  function IdCount(p: Protocol): nat {
    match p
    case FAP => 3
    case DCP => 2
    case FCTP => 2
  }

  datatype FileInfo = FileInfo(kind: byte, path: blob, user: blob, modified: uint32, size: uint32, replicas: uint32)

  datatype Section =
    | NoNext
    | Integer(value: int32)
    | Text(data: blob)
    | Binary(data: blob)
    | File(info: FileInfo)

  datatype Tag = TNone | TInteger | TText | TBinary | TFile

  function TagOf(s: Section): Tag {
    match s
    case NoNext => TNone
    case Integer(_) => TInteger
    case Text(_) => TText
    case Binary(_) => TBinary
    case File(_) => TFile
  }

  function Tags(ss: seq<Section>): (r: seq<Tag>)
    ensures |r| == |ss|
  {
    seq(|ss|, i requires 0 <= i < |ss| => TagOf(ss[i]))
  }

  function TagCode(t: Tag): uint16 {
    match t
    case TNone => 0
    case TInteger => 1
    case TText => 2
    case TBinary => 3
    case TFile => 4
  }

  datatype Msg = Msg(tid: uint64, ids: seq<uint64>, kind: uint16, sections: seq<Section>)

  /** The id array has the length its protocol asks for. */
  predicate Headed(p: Protocol, m: Msg) {
    |m.ids| == IdCount(p)
  }

  /** A message as the parser leaves it: the end marker is not in the list. */
  predicate Open(m: Msg) {
    NoNext !in m.sections
  }

  /** A message as the builders leave it: the end marker is the last entry. */
  function Seal(m: Msg): Msg {
    m.(sections := m.sections + [NoNext])
  }

  /** The sections before the first end marker. */
  function Content(ss: seq<Section>): (r: seq<Section>)
    ensures NoNext !in r
    ensures r <= ss
    ensures |r| < |ss| ==> ss[|r|] == NoNext
  {
    if ss == [] || ss[0].NoNext? then [] else
      var r := Content(ss[1..]);
      assert ([ss[0]] + r) <= ss;
      [ss[0]] + r
  }

  // DCP message types (src/dcp.h)
  const DCP_HELLO: uint16 := 1
  const DCP_HELLO_RESPONSE: uint16 := 2
  const DCP_LOCK: uint16 := 3
  const DCP_CREATE: uint16 := 4
  const DCP_READ: uint16 := 5
  const DCP_UPDATE: uint16 := 6
  const DCP_REPLICA_STATUS: uint16 := 11
  const DCP_GET_REPLICAS: uint16 := 12
  const DCP_FILEINFO: uint16 := 15
  const DCP_ERROR: uint16 := 16

  // FAP message types, commands and responses (src/fap.h)
  const FAP_HELLO: uint16 := 1
  const FAP_HELLO_RESPONSE: uint16 := 2
  const FAP_QUIT: uint16 := 3
  const FAP_COMMAND: uint16 := 5
  const FAP_RESPONSE: uint16 := 6
  const FAP_ERROR: uint16 := 8

  const CMD_CREATE: int32 := 1
  const CMD_OPEN: int32 := 2
  const CMD_CLOSE: int32 := 3
  const CMD_STAT: int32 := 4
  const CMD_READ: int32 := 5
  const CMD_WRITE: int32 := 6
  const CMD_DELETE: int32 := 7
  const CMD_COPY: int32 := 8
  const CMD_FIND: int32 := 9
  const CMD_LIST: int32 := 10

  const RESP_OK: int32 := 1
  const RESP_FILEINFO: int32 := 2
  const RESP_DATAOUT: int32 := 3

  // FCTP message types (src/fctp.h)
  const FCTP_DOWNLOAD: uint16 := 1
  const FCTP_OK: uint16 := 2
  const FCTP_ERROR: uint16 := 3

  // Error numbers shared by the protocols
  const ERR_FILENOTFOUND: int32 := 1
  const ERR_EXISTS: int32 := 2
  const ERR_MSG: int32 := 9
}
