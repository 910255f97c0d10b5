/** The wire form of a message and the parser for it (src/protomsg.c), as functions.
    Encode writes every entry of the section list; Decode stops at the first end marker
    and treats a zero-length read as a failure, which is what the source's TRY does. What a failed
    parse has not read stays on the connection. */
module Codec {
  import opened Wrappers
  import opened Bytes
  import opened Messages

  // ---- Printing -----------------------------------------------------------------------------

  function Block(d: blob): bytes {
    BigEndian(|d|, 4) + d
  }

  function Body(s: Section): bytes {
    match s
    case NoNext => []
    case Integer(v) => BigEndian(ToWord(v), 4)
    case Text(d) => Block(d)
    case Binary(d) => Block(d)
    case File(fi) => [fi.kind] + (Block(fi.path) + (Block(fi.user) + Counters(fi.modified, fi.size, fi.replicas)))
  }

  function Counters(modified: uint32, size: uint32, replicas: uint32): bytes {
    BigEndian(modified, 4) + (BigEndian(size, 4) + BigEndian(replicas, 4))
  }

  function EncodeSection(s: Section): bytes {
    BigEndian(TagCode(TagOf(s)), 2) + Body(s)
  }

  function EncodeSections(ss: seq<Section>): bytes {
    if ss == [] then [] else EncodeSection(ss[0]) + EncodeSections(ss[1..])
  }

  function EncodeIds(ids: seq<uint64>): bytes {
    if ids == [] then [] else BigEndian(ids[0], 8) + EncodeIds(ids[1..])
  }

  function Encode(m: Msg): bytes {
    BigEndian(m.tid, 8) + (EncodeIds(m.ids) + (BigEndian(m.kind, 2) + EncodeSections(m.sections)))
  }

  // ---- Parsing ------------------------------------------------------------------------------

  /** A parse has got its value and the bytes behind it, or it has failed and leaves bytes unread, or it waits for more
      bytes than there are. */
  datatype Parse<+T> = Got(value: (T, bytes)) | Broken(rest: bytes) | Short {
    predicate IsFailure() { !Got? }

    function PropagateFailure<U>(): Parse<U>
      requires !Got?
    {
      if Broken? then Broken(rest) else Short
    }

    function Extract(): (T, bytes)
      requires Got?
    {
      value
    }
  }

  /** One read of exactly n bytes; reading nothing counts as a failure. */
  function Take(bs: bytes, n: nat): (r: Parse<bytes>)
    ensures r.Got? <==> 0 < n <= |bs|
    ensures r.Got? ==> |r.value.0| == n && bs == r.value.0 + r.value.1
  {
    if n == 0 then Broken(bs) else if |bs| < n then Short else Got((bs[..n], bs[n..]))
  }

  function ReadNumber(bs: bytes, w: nat): (r: Parse<nat>)
    ensures r.Got? ==> r.value.0 < Pow256(w) && |r.value.1| + w == |bs|
  {
    var (h, t) :- Take(bs, w);
    Got((Value(h), t))
  }

  function ReadByte(bs: bytes): Parse<byte> {
    var (h, t) :- Take(bs, 1);
    Got((h[0], t))
  }

  function Read16(bs: bytes): (r: Parse<uint16>)
    ensures r.Got? ==> |r.value.1| + 2 == |bs|
  {
    Pow256Widths();
    var (n, t) :- ReadNumber(bs, 2);
    Got((n, t))
  }

  function Read32(bs: bytes): (r: Parse<uint32>)
    ensures r.Got? ==> |r.value.1| + 4 == |bs|
  {
    Pow256Widths();
    var (n, t) :- ReadNumber(bs, 4);
    Got((n, t))
  }

  function Read64(bs: bytes): (r: Parse<uint64>)
    ensures r.Got? ==> |r.value.1| + 8 == |bs|
  {
    Pow256Widths();
    var (n, t) :- ReadNumber(bs, 8);
    Got((n, t))
  }

  /** A string or binary section: empty data is not read. */
  function ReadBlock(bs: bytes): (r: Parse<blob>)
    ensures r.Got? ==> |r.value.1| < |bs|
  {
    var (n, t) :- Read32(bs);
    if n == 0 then Got(([], t)) else
      var (d, u) :- Take(t, n);
      Got((d, u))
  }

  /** The path or user name of a file info section: the data is always read, so it cannot be empty. */
  function ReadName(bs: bytes): (r: Parse<blob>)
    ensures r.Got? ==> |r.value.1| < |bs|
  {
    var (n, t) :- Read32(bs);
    var (d, u) :- Take(t, n);
    Got((d, u))
  }

  function ReadFileInfo(bs: bytes): (r: Parse<FileInfo>)
    ensures r.Got? ==> |r.value.1| < |bs|
  {
    var (kind, b1) :- ReadByte(bs);
    var (path, b2) :- ReadName(b1);
    var (user, b3) :- ReadName(b2);
    var (c, b4) :- ReadCounters(b3);
    Got((FileInfo(kind, path, user, c.0, c.1, c.2), b4))
  }

  function ReadCounters(bs: bytes): (r: Parse<(uint32, uint32, uint32)>)
    ensures r.Got? ==> |r.value.1| < |bs|
  {
    var (modified, b1) :- Read32(bs);
    var (size, b2) :- Read32(b1);
    var (replicas, b3) :- Read32(b2);
    Got(((modified, size, replicas), b3))
  }

  function DecodeBody(tag: uint16, bs: bytes): (r: Parse<Section>)
    ensures r.Got? ==> |r.value.1| < |bs|
  {
    match tag
    case 1 => var (n, t) :- Read32(bs); Got((Integer(FromWord(n)), t))
    case 2 => var (d, t) :- ReadBlock(bs); Got((Text(d), t))
    case 3 => var (d, t) :- ReadBlock(bs); Got((Binary(d), t))
    case 4 => var (fi, t) :- ReadFileInfo(bs); Got((File(fi), t))
    case _ => Broken(bs)
  }

  function DecodeSections(bs: bytes): (r: Parse<seq<Section>>)
    ensures r.Got? ==> |r.value.1| < |bs|
    decreases |bs|
  {
    var (tag, t) :- Read16(bs);
    if tag == 0 then Got(([], t)) else
      var (s, u) :- DecodeBody(tag, t);
      var (ss, v) :- DecodeSections(u);
      Got(([s] + ss, v))
  }

  function ReadIds(bs: bytes, count: nat): (r: Parse<seq<uint64>>)
    ensures r.Got? ==> |r.value.0| == count && |r.value.1| <= |bs|
    decreases count
  {
    if count == 0 then Got(([], bs)) else
      var (id, t) :- Read64(bs);
      var (ids, u) :- ReadIds(t, count - 1);
      Got(([id] + ids, u))
  }

  function Decode(p: Protocol, bs: bytes): (r: Parse<Msg>)
    ensures r.Got? ==> Headed(p, r.value.0) && |r.value.1| < |bs|
  {
    var (tid, b1) :- Read64(bs);
    var (ids, b2) :- ReadIds(b1, IdCount(p));
    var (kind, b3) :- Read16(b2);
    var (ss, b4) :- DecodeSections(b3);
    Got((Msg(tid, ids, kind, ss), b4))
  }

  // ---- What survives the wire ---------------------------------------------------------------

  /** The sections the parser can read back: a file info needs a path and a user name. */
  predicate Readable(s: Section) {
    s.File? ==> s.info.path != [] && s.info.user != []
  }

  predicate AllReadable(ss: seq<Section>) {
    forall i :: 0 <= i < |ss| ==> Readable(ss[i])
  }

  /** What is not read of the body of a section that cannot be read back. */
  function LeftOf(s: Section): bytes {
    if !s.File? then []
    else
      var c := Counters(s.info.modified, s.info.size, s.info.replicas);
      if s.info.path == [] then Block(s.info.user) + c else c
  }

  /** What is not read of a list of sections, from the first one that cannot be read back. */
  function Unread(ss: seq<Section>): bytes {
    if ss == [] then []
    else if Readable(ss[0]) then Unread(ss[1..])
    else LeftOf(ss[0]) + EncodeSections(ss[1..] + [NoNext])
  }

  // ---- Reads against prints, one field at a time --------------------------------------------

  lemma TakeFront(d: bytes, rest: bytes)
    requires d != []
    ensures Take(d + rest, |d|) == Got((d, rest))
  {
    assert (d + rest)[..|d|] == d && (d + rest)[|d|..] == rest;
  }

  lemma NumberForward(n: nat, w: nat, rest: bytes)
    requires 0 < w && n < Pow256(w)
    ensures ReadNumber(BigEndian(n, w) + rest, w) == Got((n, rest))
  {
    TakeFront(BigEndian(n, w), rest);
    ValueOfBigEndian(n, w);
  }

  lemma NumberBackward(bs: bytes, w: nat)
    requires ReadNumber(bs, w).Got?
    ensures bs == BigEndian(ReadNumber(bs, w).value.0, w) + ReadNumber(bs, w).value.1
  {
    BigEndianOfValue(Take(bs, w).value.0);
  }

  lemma Forward16(n: uint16, rest: bytes)
    ensures Read16(BigEndian(n, 2) + rest) == Got((n, rest))
  {
    Pow256Widths();
    NumberForward(n, 2, rest);
  }

  lemma Forward32(n: uint32, rest: bytes)
    ensures Read32(BigEndian(n, 4) + rest) == Got((n, rest))
  {
    Pow256Widths();
    NumberForward(n, 4, rest);
  }

  lemma Forward64(n: uint64, rest: bytes)
    ensures Read64(BigEndian(n, 8) + rest) == Got((n, rest))
  {
    Pow256Widths();
    NumberForward(n, 8, rest);
  }

  lemma BlockForward(d: blob, rest: bytes)
    ensures ReadBlock(Block(d) + rest) == Got((d, rest))
    ensures ReadName(Block(d) + rest) == if d == [] then Broken(rest) else Got((d, rest))
  {
    assert Block(d) + rest == BigEndian(|d|, 4) + (d + rest);
    Forward32(|d|, d + rest);
    if d == [] {
      assert d + rest == rest;
    } else {
      TakeFront(d, rest);
    }
  }

  lemma BlockBackward(bs: bytes)
    ensures ReadBlock(bs).Got? ==> bs == Block(ReadBlock(bs).value.0) + ReadBlock(bs).value.1
    ensures ReadName(bs).Got? ==>
              bs == Block(ReadName(bs).value.0) + ReadName(bs).value.1 && ReadName(bs).value.0 != []
  {
    hide BigEndian, Value;
    if Read32(bs).Got? {
      var (n, t) := Read32(bs).value;
      NumberBackward(bs, 4);
      if n <= |t| {
        Associate(BigEndian(n, 4), t[..n], t[n..]);
      }
    }
  }

  lemma CountersForward(modified: uint32, size: uint32, replicas: uint32, rest: bytes)
    ensures ReadCounters(Counters(modified, size, replicas) + rest) == Got(((modified, size, replicas), rest))
  {
    var m, s, r := BigEndian(modified, 4), BigEndian(size, 4), BigEndian(replicas, 4);
    Associate(m, s + r, rest);
    Associate(s, r, rest);
    Forward32(modified, s + (r + rest));
    Forward32(size, r + rest);
    Forward32(replicas, rest);
  }

  lemma CountersBackward(bs: bytes)
    requires ReadCounters(bs).Got?
    ensures var (c, rest) := ReadCounters(bs).value; bs == Counters(c.0, c.1, c.2) + rest
  {
    var (modified, b1) := Read32(bs).value;
    var (size, b2) := Read32(b1).value;
    var (replicas, b3) := Read32(b2).value;
    NumberBackward(bs, 4);
    NumberBackward(b1, 4);
    NumberBackward(b2, 4);
    var m, s, r := BigEndian(modified, 4), BigEndian(size, 4), BigEndian(replicas, 4);
    Associate(m, s + r, b3);
    Associate(s, r, b3);
  }

  lemma FileInfoForward(fi: FileInfo, rest: bytes)
    ensures ReadFileInfo(Body(File(fi)) + rest) ==
              if Readable(File(fi)) then Got((fi, rest)) else Broken(LeftOf(File(fi)) + rest)
  {
    hide BigEndian, Block, Counters, ReadName, ReadCounters;
    var c := Counters(fi.modified, fi.size, fi.replicas);
    var u, p := Block(fi.user), Block(fi.path);
    Associate([fi.kind], p + (u + c), rest);
    Associate(p, u + c, rest);
    Associate(u, c, rest);
    TakeFront([fi.kind], p + (u + (c + rest)));
    BlockForward(fi.path, u + (c + rest));
    BlockForward(fi.user, c + rest);
    CountersForward(fi.modified, fi.size, fi.replicas, rest);
  }

  lemma FileInfoBackward(bs: bytes)
    requires ReadFileInfo(bs).Got?
    ensures var (fi, rest) := ReadFileInfo(bs).value;
            Readable(File(fi)) && bs == Body(File(fi)) + rest
  {
    hide Block, BigEndian, Counters, ReadName, ReadBlock, ReadCounters;
    var (kind, b1) := ReadByte(bs).value;
    var (path, b2) := ReadName(b1).value;
    var (user, b3) := ReadName(b2).value;
    var (c, rest) := ReadCounters(b3).value;
    BlockBackward(b1);
    BlockBackward(b2);
    CountersBackward(b3);
    var cs, u, p := Counters(c.0, c.1, c.2), Block(user), Block(path);
    Associate(u, cs, rest);
    Associate(p, u + cs, rest);
    Associate([kind], p + (u + cs), rest);
    assert bs == [kind] + b1;
  }

  lemma BodyForward(s: Section, rest: bytes)
    requires !s.NoNext?
    ensures DecodeBody(TagCode(TagOf(s)), Body(s) + rest) ==
              if Readable(s) then Got((s, rest)) else Broken(LeftOf(s) + rest)
  {
    hide ReadFileInfo, ReadBlock, Read32, Block, BigEndian, Counters;
    match s
    case Integer(v) => Forward32(ToWord(v), rest);
    case Text(d) => BlockForward(d, rest);
    case Binary(d) => BlockForward(d, rest);
    case File(fi) => FileInfoForward(fi, rest);
  }

  lemma IntegerBackward(bs: bytes)
    requires Read32(bs).Got?
    ensures var (n, rest) := Read32(bs).value;
            bs == Body(Integer(FromWord(n))) + rest
  {
    NumberBackward(bs, 4);
  }

  lemma BodyBackward(tag: uint16, bs: bytes)
    requires DecodeBody(tag, bs).Got?
    ensures var (s, rest) := DecodeBody(tag, bs).value;
            !s.NoNext? && tag == TagCode(TagOf(s)) && Readable(s) && bs == Body(s) + rest
  {
    hide ReadFileInfo, ReadBlock, Read32, Block, BigEndian, Counters;
    if tag == 1 {
      IntegerBackward(bs);
    } else if tag == 4 {
      FileInfoBackward(bs);
    } else {
      TextBackward(tag, bs);
    }
  }

  lemma TextBackward(tag: uint16, bs: bytes)
    requires DecodeBody(tag, bs).Got? && (tag == 2 || tag == 3)
    ensures var (s, rest) := DecodeBody(tag, bs).value;
            !s.NoNext? && tag == TagCode(TagOf(s)) && Readable(s) && bs == Body(s) + rest
  {
    hide Block, Read32;
    BlockBackward(bs);
  }

  /** Three consecutive pieces of a stream, cut off one by one. */
  lemma ThreePieces(bs: bytes, a: bytes, t: bytes, b: bytes, u: bytes, c: bytes, rest: bytes)
    requires t == b + u && u == c + rest
    ensures bs == a + t <==> bs == ((a + b) + c) + rest
  {
    Associate(a + b, c, rest);
    Associate(a, b, u);
  }

  /** Four consecutive pieces of a stream, cut off one by one. */
  lemma FourPieces(bs: bytes, t: bytes, b1: bytes, i: bytes, b2: bytes, k: bytes, b3: bytes, s: bytes, rest: bytes)
    requires b1 == i + b2 && b2 == k + b3 && b3 == s + rest
    ensures bs == t + b1 <==> bs == (t + (i + (k + s))) + rest
  {
    Associate(k, s, rest);
    Associate(i, k + s, rest);
    Associate(t, i + (k + s), rest);
  }

  lemma EncodeCons(s: Section, ss: seq<Section>)
    ensures EncodeSections([s] + ss) == (BigEndian(TagCode(TagOf(s)), 2) + Body(s)) + EncodeSections(ss)
  {
    assert ([s] + ss)[0] == s && ([s] + ss)[1..] == ss;
  }

  lemma EndMarkerBytes()
    ensures EncodeSections([NoNext]) == BigEndian(0, 2)
  {
    assert EncodeSections([]) == [];
  }

  // ---- Whole messages -----------------------------------------------------------------------

  lemma {:induction false} SectionsForward(ss: seq<Section>, rest: bytes)
    requires NoNext !in ss
    ensures DecodeSections(EncodeSections(ss + [NoNext]) + rest) ==
              if AllReadable(ss) then Got((ss, rest)) else Broken(Unread(ss) + rest)
    decreases |ss|
  {
    hide BigEndian, Body, Read16, DecodeBody;
    if ss == [] {
      EndMarkerBytes();
      assert ss + [NoNext] == [NoNext];
      Forward16(0, rest);
    } else {
      var s, tail := ss[0], ss[1..];
      var c := EncodeSections(tail + [NoNext]);
      var tag := BigEndian(TagCode(TagOf(s)), 2);
      assert ss + [NoNext] == [s] + (tail + [NoNext]);
      EncodeCons(s, tail + [NoNext]);
      var bs := EncodeSections(ss + [NoNext]) + rest;
      ThreePieces(bs, tag, Body(s) + (c + rest), Body(s), c + rest, c, rest);
      Forward16(TagCode(TagOf(s)), Body(s) + (c + rest));
      BodyForward(s, c + rest);
      SectionsForward(tail, rest);
      assert ss == [s] + tail;
      assert AllReadable(ss) <==> Readable(s) && AllReadable(tail);
    }
  }

  lemma {:induction false} SectionsBackward(bs: bytes)
    requires DecodeSections(bs).Got?
    ensures var (ss, rest) := DecodeSections(bs).value;
            NoNext !in ss && AllReadable(ss) && bs == EncodeSections(ss + [NoNext]) + rest
    decreases |bs|
  {
    var (tag, t) := Read16(bs).value;
    NumberBackward(bs, 2);
    if tag == 0 {
      EndMarkerBytes();
      assert [] + [NoNext] == [NoNext];
    } else {
      var (s, u) := DecodeBody(tag, t).value;
      var (ss, rest) := DecodeSections(u).value;
      BodyBackward(tag, t);
      SectionsBackward(u);
      EncodeCons(s, ss + [NoNext]);
      assert [s] + (ss + [NoNext]) == ([s] + ss) + [NoNext];
      ThreePieces(bs, BigEndian(tag, 2), t, Body(s), u, EncodeSections(ss + [NoNext]), rest);
    }
  }

  lemma {:induction false} IdsForward(ids: seq<uint64>, rest: bytes)
    ensures ReadIds(EncodeIds(ids) + rest, |ids|) == Got((ids, rest))
  {
    if ids == [] {
      assert EncodeIds(ids) + rest == rest;
    } else {
      assert EncodeIds(ids) + rest == BigEndian(ids[0], 8) + (EncodeIds(ids[1..]) + rest);
      Forward64(ids[0], EncodeIds(ids[1..]) + rest);
      IdsForward(ids[1..], rest);
      assert ids == [ids[0]] + ids[1..];
    }
  }

  lemma {:induction false} IdsBackward(bs: bytes, count: nat)
    requires ReadIds(bs, count).Got?
    ensures bs == EncodeIds(ReadIds(bs, count).value.0) + ReadIds(bs, count).value.1
    decreases count
  {
    if count > 0 {
      NumberBackward(bs, 8);
      IdsBackward(Read64(bs).value.1, count - 1);
    }
  }

  /** Parsing a printed message followed by anything gives the message back without its end marker and leaves exactly
      what followed, precisely when every file info names a path and a user; otherwise it fails and leaves the rest of
      the message from there on unread. */
  lemma RoundTrip(p: Protocol, m: Msg, rest: bytes)
    requires Headed(p, m) && Open(m)
    ensures Decode(p, Encode(Seal(m)) + rest) ==
              if AllReadable(m.sections) then Got((m, rest)) else Broken(Unread(m.sections) + rest)
  {
    var t, i, k := BigEndian(m.tid, 8), EncodeIds(m.ids), BigEndian(m.kind, 2);
    var s := EncodeSections(m.sections + [NoNext]);
    FourPieces(Encode(Seal(m)) + rest, t, i + (k + (s + rest)), i, k + (s + rest), k, s + rest, s, rest);
    Forward64(m.tid, i + (k + (s + rest)));
    IdsForward(m.ids, k + (s + rest));
    Forward16(m.kind, s + rest);
    SectionsForward(m.sections, rest);
  }

  /** The parser accepts nothing but printed messages: what it consumed is the printed form of its result. */
  lemma DecodeIsEncodeInverse(p: Protocol, bs: bytes)
    requires Decode(p, bs).Got?
    ensures var (m, rest) := Decode(p, bs).value;
            Headed(p, m) && Open(m) && AllReadable(m.sections) && bs == Encode(Seal(m)) + rest
  {
    var (tid, b1) := Read64(bs).value;
    var (ids, b2) := ReadIds(b1, IdCount(p)).value;
    var (kind, b3) := Read16(b2).value;
    var (ss, b4) := DecodeSections(b3).value;
    NumberBackward(bs, 8);
    IdsBackward(b1, IdCount(p));
    NumberBackward(b2, 2);
    SectionsBackward(b3);
    FourPieces(bs, BigEndian(tid, 8), b1, EncodeIds(ids), b2, BigEndian(kind, 2), b3,
               EncodeSections(ss + [NoNext]), b4);
  }

  /** No printed message is a proper prefix of another; equal streams start with equal messages. */
  lemma PrefixFree(p: Protocol, a: Msg, b: Msg, x: bytes, y: bytes)
    requires Headed(p, a) && Open(a) && AllReadable(a.sections)
    requires Headed(p, b) && Open(b) && AllReadable(b.sections)
    requires Encode(Seal(a)) + x == Encode(Seal(b)) + y
    ensures a == b && x == y
  {
    RoundTrip(p, a, x);
    RoundTrip(p, b, y);
  }

  // ---- More bytes behind --------------------------------------------------------------------

  /** The same outcome with more bytes behind what is left. */
  function With<T>(r: Parse<T>, x: bytes): Parse<T> {
    match r
    case Got((v, rest)) => Got((v, rest + x))
    case Broken(rest) => Broken(rest + x)
    case Short => Short
  }

  lemma TakeGrows(bs: bytes, n: nat, x: bytes)
    requires !Take(bs, n).Short?
    ensures Take(bs + x, n) == With(Take(bs, n), x)
  {
    if n > 0 {
      assert (bs + x)[..n] == bs[..n] && (bs + x)[n..] == bs[n..] + x;
    }
  }

  lemma NumberGrows(bs: bytes, w: nat, x: bytes)
    requires !ReadNumber(bs, w).Short?
    ensures ReadNumber(bs + x, w) == With(ReadNumber(bs, w), x)
  {
    TakeGrows(bs, w, x);
  }

  lemma Grows32(bs: bytes, x: bytes)
    requires !Read32(bs).Short?
    ensures Read32(bs + x) == With(Read32(bs), x)
  {
    Pow256Widths();
    NumberGrows(bs, 4, x);
  }

  lemma BlockGrows(bs: bytes, x: bytes)
    ensures !ReadBlock(bs).Short? ==> ReadBlock(bs + x) == With(ReadBlock(bs), x)
    ensures !ReadName(bs).Short? ==> ReadName(bs + x) == With(ReadName(bs), x)
  {
    if !Read32(bs).Short? {
      Grows32(bs, x);
      if Read32(bs).Got? {
        var (n, t) := Read32(bs).value;
        if !Take(t, n).Short? {
          TakeGrows(t, n, x);
        }
      }
    }
  }

  lemma CountersGrow(bs: bytes, x: bytes)
    requires !ReadCounters(bs).Short?
    ensures ReadCounters(bs + x) == With(ReadCounters(bs), x)
  {
    hide Read32;
    Grows32(bs, x);
    if Read32(bs).Got? {
      var b1 := Read32(bs).value.1;
      Grows32(b1, x);
      if Read32(b1).Got? {
        Grows32(Read32(b1).value.1, x);
      }
    }
  }

  lemma FileInfoGrows(bs: bytes, x: bytes)
    requires !ReadFileInfo(bs).Short?
    ensures ReadFileInfo(bs + x) == With(ReadFileInfo(bs), x)
  {
    hide ReadName, ReadCounters;
    TakeGrows(bs, 1, x);
    if ReadByte(bs).Got? {
      var b1 := ReadByte(bs).value.1;
      BlockGrows(b1, x);
      if ReadName(b1).Got? {
        var b2 := ReadName(b1).value.1;
        BlockGrows(b2, x);
        if ReadName(b2).Got? {
          CountersGrow(ReadName(b2).value.1, x);
        }
      }
    }
  }

  lemma BodyGrows(tag: uint16, bs: bytes, x: bytes)
    requires !DecodeBody(tag, bs).Short?
    ensures DecodeBody(tag, bs + x) == With(DecodeBody(tag, bs), x)
  {
    hide Read32, ReadBlock, ReadFileInfo;
    match tag
    case 1 => Grows32(bs, x);
    case 2 => BlockGrows(bs, x);
    case 3 => BlockGrows(bs, x);
    case 4 => FileInfoGrows(bs, x);
    case _ =>
  }

  lemma {:induction false} SectionsGrow(bs: bytes, x: bytes)
    requires !DecodeSections(bs).Short?
    ensures DecodeSections(bs + x) == With(DecodeSections(bs), x)
    decreases |bs|
  {
    hide DecodeBody;
    Pow256Widths();
    NumberGrows(bs, 2, x);
    if Read16(bs).Got? && Read16(bs).value.0 != 0 {
      var (tag, t) := Read16(bs).value;
      BodyGrows(tag, t, x);
      if DecodeBody(tag, t).Got? {
        SectionsGrow(DecodeBody(tag, t).value.1, x);
      }
    }
  }

  lemma {:induction false} IdsGrow(bs: bytes, count: nat, x: bytes)
    requires !ReadIds(bs, count).Short?
    ensures ReadIds(bs + x, count) == With(ReadIds(bs, count), x)
    decreases count
  {
    if count > 0 {
      Pow256Widths();
      NumberGrows(bs, 8, x);
      if Read64(bs).Got? {
        IdsGrow(Read64(bs).value.1, count - 1, x);
      }
    }
  }

  /** The parser does not look ahead: what it makes of the bytes that have arrived, it makes of them whatever arrives
      behind them. */
  lemma DecodeGrows(p: Protocol, bs: bytes, x: bytes)
    requires !Decode(p, bs).Short?
    ensures Decode(p, bs + x) == With(Decode(p, bs), x)
  {
    hide ReadIds, DecodeSections, ReadNumber;
    Pow256Widths();
    NumberGrows(bs, 8, x);
    if Read64(bs).Got? {
      var b1 := Read64(bs).value.1;
      IdsGrow(b1, IdCount(p), x);
      if ReadIds(b1, IdCount(p)).Got? {
        var b2 := ReadIds(b1, IdCount(p)).value.1;
        NumberGrows(b2, 2, x);
        if Read16(b2).Got? {
          SectionsGrow(Read16(b2).value.1, x);
        }
      }
    }
  }

  /** An id that can be read with what follows it is the first of a message. */
  lemma FirstId(p: Protocol, id: uint64, bs: bytes)
    ensures Decode(p, BigEndian(id, 8) + bs).Got? ==> Decode(p, BigEndian(id, 8) + bs).value.0.tid == id
  {
    Forward64(id, bs);
  }

  /** What a sender that writes the messages one after the other puts on the connection. */
  function Stream(ms: seq<Msg>): bytes {
    if ms == [] then [] else Encode(Seal(ms[0])) + Stream(ms[1..])
  }

  /** What a receiver that parses until the first failure gets from it. */
  function Received(p: Protocol, bs: bytes): (r: seq<Msg>)
    decreases |bs|
  {
    match Decode(p, bs)
    case Broken(_) => []
    case Short => []
    case Got((m, rest)) => [m] + Received(p, rest)
  }

  /** The sender's list up to the first message that cannot be read back. */
  function UpToUnreadable(ms: seq<Msg>): seq<Msg> {
    if ms == [] || !AllReadable(ms[0].sections) then [] else [ms[0]] + UpToUnreadable(ms[1..])
  }

  lemma NothingReceived(p: Protocol)
    ensures Received(p, []) == []
  {
    assert Read64([]).Short?;
  }

  /** A back-to-back stream decodes to the list sent, up to the first unreadable message. */
  lemma {:induction false} StreamRoundTrip(p: Protocol, ms: seq<Msg>)
    requires forall i :: 0 <= i < |ms| ==> Headed(p, ms[i]) && Open(ms[i])
    ensures Received(p, Stream(ms)) == UpToUnreadable(ms)
  {
    if ms == [] {
      NothingReceived(p);
    } else {
      RoundTrip(p, ms[0], Stream(ms[1..]));
      StreamRoundTrip(p, ms[1..]);
    }
  }

  lemma {:induction false} NothingUnreadable(ms: seq<Msg>)
    requires forall i :: 0 <= i < |ms| ==> AllReadable(ms[i].sections)
    ensures UpToUnreadable(ms) == ms
  {
    if ms != [] {
      NothingUnreadable(ms[1..]);
      assert ms == [ms[0]] + ms[1..];
    }
  }

  /** When every message can be read back the receiver gets exactly the list sent. */
  lemma StreamDelivered(p: Protocol, ms: seq<Msg>)
    requires forall i :: 0 <= i < |ms| ==> Headed(p, ms[i]) && Open(ms[i]) && AllReadable(ms[i].sections)
    ensures Received(p, Stream(ms)) == ms
  {
    StreamRoundTrip(p, ms);
    NothingUnreadable(ms);
  }
}
