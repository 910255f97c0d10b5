/** The bytes themselves: the numbers of doc/desc/protocols.md and of the headers, in examples of every section
    type, every message type and every protocol. The round trips do not depend on them, the other end of a
    connection does. */
module Layout {
  import opened Bytes
  import opened Messages
  import opened Codec
  import opened Transfer
  import Dcp
  import Fap

  /** Small numbers in two, four and eight bytes. */
  lemma SmallWords(n: nat)
    requires n < 256
    ensures BigEndian(n, 2) == [0, n] && BigEndian(n, 4) == [0, 0, 0, n] && BigEndian(n, 8) == [0, 0, 0, 0, 0, 0, 0, n]
  {
    assert n / 256 == 0 && n % 256 == n;
    assert BigEndian(0, 1) == [0];
    assert BigEndian(0, 2) == [0, 0];
    assert BigEndian(0, 3) == [0, 0, 0];
    assert BigEndian(0, 4) == [0, 0, 0, 0];
    assert BigEndian(0, 5) == [0, 0, 0, 0, 0];
    assert BigEndian(0, 6) == [0, 0, 0, 0, 0, 0];
    assert BigEndian(0, 7) == [0, 0, 0, 0, 0, 0, 0];
  }

  /** One section of each type: the end marker and integers, which are 32-bit two's complement. */
  lemma IntegerBytes()
    ensures EncodeSection(NoNext) == [0, 0]
    ensures EncodeSection(Integer(7)) == [0, 1] + [0, 0, 0, 7]
    ensures EncodeSection(Integer(-2)) == [0, 1] + [255, 255, 255, 254]
  {
    hide BigEndian;
    SmallWords(0);
    SmallWords(1);
    SmallWords(7);
    MinusTwo();
  }

  /** Text and binary data have their length before them. */
  lemma DataBytes()
    ensures EncodeSection(Text([47, 97])) == [0, 2] + ([0, 0, 0, 2] + [47, 97])
    ensures EncodeSection(Binary([255])) == [0, 3] + ([0, 0, 0, 1] + [255])
  {
    hide BigEndian;
    SmallWords(1);
    SmallWords(2);
    SmallWords(3);
  }

  /** A file info has its type, its path and its user with their lengths, and its three counters. */
  lemma FileBytes()
    ensures EncodeSection(File(FileInfo(9, [97], [98, 99], 1, 2, 3))) ==
              [0, 4] + ([9] + (([0, 0, 0, 1] + [97]) + (([0, 0, 0, 2] + [98, 99]) +
                                ([0, 0, 0, 1] + ([0, 0, 0, 2] + [0, 0, 0, 3])))))
  {
    hide BigEndian;
    SmallWords(1);
    SmallWords(2);
    SmallWords(3);
    SmallWords(4);
  }

  lemma MinusTwo()
    ensures BigEndian(0xFFFF_FFFE, 4) == [255, 255, 255, 254]
  {
    assert BigEndian(0xFF, 1) == [255];
    assert BigEndian(0xFFFF, 2) == [255, 255];
    assert BigEndian(0xFF_FFFF, 3) == [255, 255, 255];
  }

  /** The numbers of the message types of the directory control protocol. */
  lemma DcpKinds(b: Dcp.Body)
    ensures Dcp.KindOf(b) ==
              match b {
                case Hello(_, _, _, _) => 1
                case HelloResponse(_) => 2
                case Create(_) => 4
                case Read(_, _) => 5
                case Update(_) => 6
                case ReplicaStatus(_) => 11
                case GetReplicas(_) => 12
                case FileList(_) => 15
                case Failure(_, _) => 16
              }
  {
  }

  /** Those of the file access protocol, with the numbers of the commands and responses in their first section. */
  lemma FapKinds(b: Fap.Body)
    ensures var first := if Fap.SectionsOf(b) == [] then NoNext else Fap.SectionsOf(b)[0];
            match b {
              case Hello(host, _) => Fap.KindOf(b) == 1 && first == Text(host)
              case HelloResponse(name, _) => Fap.KindOf(b) == 2 && first == Text(name)
              case Quit => Fap.KindOf(b) == 3 && first == NoNext
              case CmdCreate(_, _) => Fap.KindOf(b) == 5 && first == Integer(1)
              case CmdRead(_, _, _) => Fap.KindOf(b) == 5 && first == Integer(5)
              case CmdWrite(_, _) => Fap.KindOf(b) == 5 && first == Integer(6)
              case CmdList(_, _) => Fap.KindOf(b) == 5 && first == Integer(10)
              case Ok => Fap.KindOf(b) == 6 && first == Integer(1)
              case Files(_) => Fap.KindOf(b) == 6 && first == Integer(2)
              case DataOut(_) => Fap.KindOf(b) == 6 && first == Integer(3)
              case Failure(code, _) => Fap.KindOf(b) == 8 && first == Integer(code)
            }
  {
  }

  /** What is printed of a section list with its end marker, first section first. */
  lemma FirstSection(ss: seq<Section>)
    ensures EncodeSections(ss + [NoNext]) ==
              if ss == [] then [0, 0] else EncodeSection(ss[0]) + EncodeSections(ss[1..] + [NoNext])
  {
    if ss == [] {
      assert ss + [NoNext] == [NoNext];
      IntegerBytes();
      EndMarkerBytes();
    } else {
      assert (ss + [NoNext])[1..] == ss[1..] + [NoNext];
    }
  }

  lemma OneText()
    ensures EncodeSections([Text([47, 97])] + [NoNext]) == ([0, 2] + ([0, 0, 0, 2] + [47, 97])) + [0, 0]
  {
    hide EncodeSection, EncodeSections;
    FirstSection([Text([47, 97])]);
    FirstSection([]);
    DataBytes();
    assert [Text([47, 97])][1..] == [];
  }

  lemma NumberFirst(n: int32, ss: seq<Section>)
    requires 0 <= n < 256
    ensures EncodeSections([Integer(n)] + ss + [NoNext]) ==
              ([0, 1] + [0, 0, 0, n]) + EncodeSections(ss + [NoNext])
  {
    hide BigEndian, EncodeSections;
    SmallWords(1);
    SmallWords(n);
    FirstSection([Integer(n)] + ss);
    assert ([Integer(n)] + ss)[1..] == ss;
  }

  lemma TwoIds(a: uint64, b: uint64)
    requires a < 256 && b < 256
    ensures EncodeIds([a, b]) == [0, 0, 0, 0, 0, 0, 0, a] + [0, 0, 0, 0, 0, 0, 0, b]
  {
    hide BigEndian;
    SmallWords(a);
    SmallWords(b);
    assert [a, b][1..] == [b] && [b][1..] == [];
    assert EncodeIds([]) == [] && BigEndian(b, 8) + [] == BigEndian(b, 8);
  }

  lemma ThreeIds(a: uint64, b: uint64, c: uint64)
    requires a < 256 && b < 256 && c < 256
    ensures EncodeIds([a, b, c]) ==
              [0, 0, 0, 0, 0, 0, 0, a] + ([0, 0, 0, 0, 0, 0, 0, b] + [0, 0, 0, 0, 0, 0, 0, c])
  {
    hide BigEndian;
    SmallWords(a);
    assert [a, b, c][1..] == [b, c];
    TwoIds(b, c);
  }

  /** A message of the file access protocol, listing /a: the transaction; server, client and file system; the type; the
      command, whether to recurse, and the path; and the end marker. */
  lemma FapBytes()
    ensures Encode(Seal(Fap.Message(1, 2, 3, 4, Fap.CmdList(1, [47, 97])))) ==
              [0, 0, 0, 0, 0, 0, 0, 1] +
              (([0, 0, 0, 0, 0, 0, 0, 2] + ([0, 0, 0, 0, 0, 0, 0, 3] + [0, 0, 0, 0, 0, 0, 0, 4])) +
               ([0, 5] +
                (([0, 1] + [0, 0, 0, 10]) +
                 (([0, 1] + [0, 0, 0, 1]) + (([0, 2] + ([0, 0, 0, 2] + [47, 97])) + [0, 0])))))
  {
    hide BigEndian, EncodeSections, EncodeIds;
    SmallWords(1);
    SmallWords(5);
    ThreeIds(2, 3, 4);
    var text := [Text([47, 97])];
    NumberFirst(10, [Integer(1)] + text);
    NumberFirst(1, text);
    OneText();
    assert [Integer(10)] + ([Integer(1)] + text) == [Integer(10), Integer(1), Text([47, 97])];
  }

  /** One of the directory control protocol, listing /a: two ids, which this request carries the other way round. */
  lemma DcpBytes()
    ensures Encode(Seal(Dcp.Asking(1, 2, 3, Dcp.Read(1, [47, 97])))) ==
              [0, 0, 0, 0, 0, 0, 0, 1] +
              (([0, 0, 0, 0, 0, 0, 0, 3] + [0, 0, 0, 0, 0, 0, 0, 2]) +
               ([0, 5] + (([0, 1] + [0, 0, 0, 1]) + (([0, 2] + ([0, 0, 0, 2] + [47, 97])) + [0, 0]))))
  {
    hide BigEndian, EncodeSections, EncodeIds;
    SmallWords(1);
    SmallWords(5);
    TwoIds(3, 2);
    var text := [Text([47, 97])];
    NumberFirst(1, text);
    OneText();
    assert [Integer(1)] + text == [Integer(1), Text([47, 97])];
  }

  /** The request for the replicas of /a carries them in the documented order. */
  lemma ReplicaBytes()
    ensures Encode(Seal(Dcp.Asking(1, 2, 3, Dcp.GetReplicas([47, 97])))) ==
              [0, 0, 0, 0, 0, 0, 0, 1] +
              (([0, 0, 0, 0, 0, 0, 0, 2] + [0, 0, 0, 0, 0, 0, 0, 3]) +
               ([0, 12] + (([0, 2] + ([0, 0, 0, 2] + [47, 97])) + [0, 0])))
  {
    hide BigEndian, EncodeSections, EncodeIds;
    SmallWords(1);
    SmallWords(12);
    TwoIds(2, 3);
    OneText();
  }

  /** One of the file content transfer protocol, asking another file server for /a. */
  lemma FctpBytes()
    ensures Encode(Seal(Download(1, 2, 3, [47, 97]))) ==
              [0, 0, 0, 0, 0, 0, 0, 1] +
              (([0, 0, 0, 0, 0, 0, 0, 2] + [0, 0, 0, 0, 0, 0, 0, 3]) +
               ([0, 1] + (([0, 2] + ([0, 0, 0, 2] + [47, 97])) + [0, 0])))
  {
    hide BigEndian, EncodeSections, EncodeIds;
    SmallWords(1);
    TwoIds(2, 3);
    OneText();
  }
}
