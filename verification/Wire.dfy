/** The mutable side of src/protomsg.c: the growing output buffer, the NULL-terminated section array,
    the serializer that walks the array and the parser that reads a connection field by field.
    Each is proved against the functions of module Codec. The host is little-endian. */
module Wire {
  import opened Wrappers
  import opened Bytes
  import opened Messages
  import opened Codec

  function Max(a: int, b: int): int {
    if a < b then b else a
  }

  /** buffer, buflen and ptr of bufferadd. */
  class ByteBuffer {
    var store: array<byte>
    var used: nat

    ghost predicate Valid()
      reads this
    {
      used <= store.Length
    }

    ghost function Contents(): bytes
      requires Valid()
      reads this, store
    {
      store[..used]
    }

    constructor (capacity: nat)
      ensures Valid() && fresh(store) && Contents() == [] && store.Length == capacity
    {
      store := new byte[capacity](_ => 0);
      used := 0;
    }

    /** Appends data, moving to a larger block when it does not fit. */
    method BufferAdd(data: bytes) returns (n: nat)
      requires Valid()
      modifies this, store
      ensures Valid() && n == |data| && used == old(used) + n
      ensures store == old(store) || fresh(store)
      ensures Contents() == old(Contents()) + data
      ensures store.Length == if old(used) + |data| > old(store.Length)
                              then old(store.Length) + |data| + 64 else old(store.Length)
    {
      ghost var before := Contents();
      if used + |data| > store.Length {
        var larger := new byte[store.Length + |data| + 64](_ => 0);
        CopyTo(larger, 0, store[..used]);
        store := larger;
        assert Contents() == before;
      }
      CopyTo(store, used, data);
      used := used + |data|;
      n := |data|;
      assert Contents() == before + data;
    }
  }

  /** memcpy into a block, which keeps what lies before the target. */
  method CopyTo(target: array<byte>, at: nat, data: bytes)
    requires at + |data| <= target.Length
    modifies target
    ensures target[..at + |data|] == old(target[..at]) + data
  {
    forall i | 0 <= i < |data| {
      target[at + i] := data[i];
    }
    assert forall i :: at <= i < at + |data| ==> target[i] == data[i - at];
  }

  /** struct fsmsg: the header fields and the section pointers, NULL last. */
  class Fsmsg {
    var tid: uint64
    var ids: seq<uint64>
    var kind: uint16
    var sections: array<Option<Section>>

    ghost predicate Valid()
      reads this, sections
    {
      && sections.Length > 0
      && sections[sections.Length - 1] == None
      && forall i :: 0 <= i < sections.Length - 1 ==> sections[i].Some?
    }

    /** The sections before the NULL entry. */
    function Listed(): (r: seq<Section>)
      requires Valid()
      reads this, sections
      ensures |r| == sections.Length - 1
    {
      seq(sections.Length - 1,
          i requires 0 <= i < sections.Length - 1 && sections[i].Some? reads this, sections => sections[i].value)
    }

    function View(): Msg
      requires Valid()
      reads this, sections
    {
      Msg(tid, ids, kind, Listed())
    }

    constructor Create(p: Protocol)
      ensures Valid() && fresh(sections)
      ensures Listed() == [] && |ids| == IdCount(p) && kind == 0
    {
      tid := 0;
      ids := seq(IdCount(p), _ => 0);
      kind := 0;
      sections := new Option<Section>[1](_ => None);
    }

    /** Finds the NULL entry, makes room for one pointer more and puts a copy of the section there. */
    method AddSection(s: Section)
      requires Valid()
      modifies this`sections
      ensures Valid() && fresh(sections)
      ensures Listed() == old(Listed()) + [s]
    {
      var count := 0;
      while sections[count].Some?
        invariant 0 <= count < sections.Length
        decreases sections.Length - count
      {
        count := count + 1;
      }
      assert count == sections.Length - 1;
      var larger := new Option<Section>[count + 2](_ => None);
      forall i | 0 <= i < count {
        larger[i] := sections[i];
      }
      larger[count] := Some(s);
      sections := larger;
    }

    /** Rewrites the integer of an integer section in place, as the SECI macro allows. */
    method SetInteger(k: nat, v: int32)
      requires Valid() && k < |Listed()| && Listed()[k].Integer?
      modifies sections
      ensures Valid() && Listed() == old(Listed())[k := Integer(v)]
    {
      sections[k] := Some(Integer(v));
    }
  }

  lemma EncodeSectionsAppend(ss: seq<Section>, s: Section)
    ensures EncodeSections(ss + [s]) == EncodeSections(ss) + EncodeSection(s)
  {
    if ss != [] {
      EncodeSectionsAppend(ss[1..], s);
      assert (ss + [s])[1..] == ss[1..] + [s];
    }
  }

  lemma EncodeIdsAppend(ids: seq<uint64>, id: uint64)
    ensures EncodeIds(ids + [id]) == EncodeIds(ids) + BigEndian(id, 8)
  {
    if ids != [] {
      EncodeIdsAppend(ids[1..], id);
      assert (ids + [id])[1..] == ids[1..] + [id];
    }
  }

  /** The capacity bound that growing keeps; below a gigabyte no 32-bit length can overflow. */
  predicate Roomy(capacity: nat, len: nat) {
    capacity <= Max(1024, 2 * len + 64)
  }

  /** On either kind of host the id goes out as swap64 lays it down, which is big-endian on a little-endian one. */
  method AddWord64(buf: ByteBuffer, h: Host, v: uint64) returns (n: nat)
    requires buf.Valid() && Roomy(buf.store.Length, buf.used)
    modifies buf, buf.store
    ensures buf.Valid() && Roomy(buf.store.Length, buf.used) && n == 8
    ensures buf.store == old(buf.store) || fresh(buf.store)
    ensures buf.Contents() == old(buf.Contents()) +
              if h.LittleEndian? then BigEndian(v, 8) else BigEndian(Low(v), 4) + BigEndian(High(v), 4)
  {
    Swap64Words(h, v);
    Swap64IsBigEndian(h, v);
    n := buf.BufferAdd(InMemory(h, Swap64(h, v), 8));
  }

  method AddWord32(buf: ByteBuffer, v: uint32) returns (n: nat)
    requires buf.Valid() && Roomy(buf.store.Length, buf.used)
    modifies buf, buf.store
    ensures buf.Valid() && Roomy(buf.store.Length, buf.used) && n == 4
    ensures buf.store == old(buf.store) || fresh(buf.store)
    ensures buf.Contents() == old(buf.Contents()) + BigEndian(v, 4)
  {
    n := buf.BufferAdd(InMemory(LittleEndian, Htonl(LittleEndian, v), 4));
  }

  method AddBlock(buf: ByteBuffer, d: blob) returns (n: nat)
    requires buf.Valid() && Roomy(buf.store.Length, buf.used)
    modifies buf, buf.store
    ensures buf.Valid() && Roomy(buf.store.Length, buf.used) && n == |Block(d)|
    ensures buf.store == old(buf.store) || fresh(buf.store)
    ensures buf.Contents() == old(buf.Contents()) + Block(d)
  {
    n := AddWord32(buf, |d|);
    var k := buf.BufferAdd(d);
    n := n + k;
  }

  /** The three closing words of a file info. */
  method AddCounters(buf: ByteBuffer, fi: FileInfo) returns (n: nat)
    requires buf.Valid() && Roomy(buf.store.Length, buf.used)
    modifies buf, buf.store
    ensures buf.Valid() && Roomy(buf.store.Length, buf.used) && n == 12
    ensures buf.store == old(buf.store) || fresh(buf.store)
    ensures buf.Contents() == old(buf.Contents()) + Counters(fi.modified, fi.size, fi.replicas)
  {
    ghost var before := buf.Contents();
    var a := AddWord32(buf, fi.modified);
    var b := AddWord32(buf, fi.size);
    var c := AddWord32(buf, fi.replicas);
    n := a + b + c;
    Associate(before, BigEndian(fi.modified, 4), BigEndian(fi.size, 4));
    Associate(before, BigEndian(fi.modified, 4) + BigEndian(fi.size, 4), BigEndian(fi.replicas, 4));
    Associate(BigEndian(fi.modified, 4), BigEndian(fi.size, 4), BigEndian(fi.replicas, 4));
  }

  method AddBody(buf: ByteBuffer, s: Section) returns (n: nat)
    requires buf.Valid() && Roomy(buf.store.Length, buf.used)
    modifies buf, buf.store
    ensures buf.Valid() && Roomy(buf.store.Length, buf.used) && n == |Body(s)|
    ensures buf.store == old(buf.store) || fresh(buf.store)
    ensures buf.Contents() == old(buf.Contents()) + Body(s)
  {
    ghost var before := buf.Contents();
    match s
    case NoNext =>
      n := 0;
      assert before + [] == before;
    case Integer(v) =>
      n := AddWord32(buf, ToWord(v));
    case Text(d) =>
      n := AddBlock(buf, d);
    case Binary(d) =>
      n := AddBlock(buf, d);
    case File(fi) =>
      n := buf.BufferAdd([fi.kind]);
      var a := AddBlock(buf, fi.path);
      var b := AddBlock(buf, fi.user);
      var c := AddCounters(buf, fi);
      n := n + a + b + c;
      ghost var p, u, k := Block(fi.path), Block(fi.user), Counters(fi.modified, fi.size, fi.replicas);
      Associate(before + [fi.kind] + p, u, k);
      Associate(before + [fi.kind], p, u + k);
      Associate(before, [fi.kind], p + (u + k));
  }

  method AddSectionBytes(buf: ByteBuffer, s: Section) returns (n: nat)
    requires buf.Valid() && Roomy(buf.store.Length, buf.used)
    modifies buf, buf.store
    ensures buf.Valid() && Roomy(buf.store.Length, buf.used) && n == |EncodeSection(s)| && buf.used == old(buf.used) + n
    ensures buf.store == old(buf.store) || fresh(buf.store)
    ensures buf.Contents() == old(buf.Contents()) + EncodeSection(s)
  {
    ghost var before := buf.Contents();
    n := buf.BufferAdd(BigEndian(TagCode(TagOf(s)), 2));
    var b := AddBody(buf, s);
    n := n + b;
    Associate(before, BigEndian(TagCode(TagOf(s)), 2), Body(s));
  }

  method AddIds(buf: ByteBuffer, ids: seq<uint64>) returns (len: nat)
    requires buf.Valid() && Roomy(buf.store.Length, buf.used)
    modifies buf, buf.store
    ensures buf.Valid() && Roomy(buf.store.Length, buf.used) && buf.used == old(buf.used) + len
    ensures buf.store == old(buf.store) || fresh(buf.store)
    ensures buf.Contents() == old(buf.Contents()) + EncodeIds(ids)
  {
    ghost var before := buf.Contents();
    len := 0;
    assert before + EncodeIds(ids[..0]) == before;
    for i := 0 to |ids|
      invariant buf.Valid() && Roomy(buf.store.Length, buf.used)
      invariant buf.store == old(buf.store) || fresh(buf.store)
      invariant buf.Contents() == before + EncodeIds(ids[..i]) && buf.used == old(buf.used) + len
    {
      ghost var sofar := buf.Contents();
      var n := AddWord64(buf, LittleEndian, ids[i]);
      assert |buf.Contents()| == |sofar| + 8;
      len := len + n;
      EncodeIdsAppend(ids[..i], ids[i]);
      assert ids[..i + 1] == ids[..i] + [ids[i]];
      Associate(before, EncodeIds(ids[..i]), BigEndian(ids[i], 8));
    }
    assert ids[..|ids|] == ids;
  }

  lemma TakeOneMore(before: bytes, ss: seq<Section>, i: nat)
    requires i < |ss|
    ensures before + EncodeSections(ss[..i + 1]) == (before + EncodeSections(ss[..i])) + EncodeSection(ss[i])
  {
    assert ss[..i + 1] == ss[..i] + [ss[i]];
    EncodeSectionsAppend(ss[..i], ss[i]);
    Associate(before, EncodeSections(ss[..i]), EncodeSection(ss[i]));
  }

  lemma EncodeNothing()
    ensures EncodeSections([]) == []
  {
  }

  /** The loop over the section pointers, up to the NULL entry. */
  method AddSections(buf: ByteBuffer, msg: Fsmsg) returns (len: nat)
    requires buf.Valid() && Roomy(buf.store.Length, buf.used)
    requires msg.Valid() && buf.store as object != msg.sections && buf as object != msg
    modifies buf, buf.store
    ensures buf.Valid() && Roomy(buf.store.Length, buf.used) && buf.used == old(buf.used) + len
    ensures buf.store == old(buf.store) || fresh(buf.store)
    ensures buf.Contents() == old(buf.Contents()) + EncodeSections(msg.Listed())
  {
    hide EncodeSections, EncodeSection;
    EncodeNothing();
    ghost var before := buf.Contents();
    ghost var ss := msg.Listed();
    len := 0;
    var i := 0;
    assert before + EncodeSections(ss[..0]) == before;
    while msg.sections[i].Some?
      invariant 0 <= i <= |ss|
      invariant msg.Valid() && msg.Listed() == ss
      invariant buf.Valid() && Roomy(buf.store.Length, buf.used)
      invariant buf.store == old(buf.store) || fresh(buf.store)
      invariant buf.Contents() == before + EncodeSections(ss[..i]) && buf.used == old(buf.used) + len
      decreases |ss| - i
    {
      var s := msg.sections[i].value;
      assert s == ss[i];
      var n := AddSectionBytes(buf, s);
      len := len + n;
      TakeOneMore(before, ss, i);
      i := i + 1;
    }
    assert ss[..i] == ss;
  }

  method AddHeader(buf: ByteBuffer, msg: Fsmsg) returns (len: nat)
    requires buf.Valid() && Roomy(buf.store.Length, buf.used) && buf.used == 0 && buf as object != msg
    modifies buf, buf.store
    ensures buf.Valid() && Roomy(buf.store.Length, buf.used) && buf.used == len
    ensures buf.store == old(buf.store) || fresh(buf.store)
    ensures buf.Contents() == BigEndian(msg.tid, 8) + EncodeIds(msg.ids) + BigEndian(msg.kind, 2)
  {
    var a := AddWord64(buf, LittleEndian, msg.tid);
    assert buf.Contents() == BigEndian(msg.tid, 8);
    var b := AddIds(buf, msg.ids);
    var c := buf.BufferAdd(BigEndian(msg.kind, 2));
    len := a + b + c;
  }

  /** Serializes a message; the result holds exactly its encoding, whatever moves the buffer made. */
  method FsmsgToBuffer(msg: Fsmsg, p: Protocol) returns (buf: ByteBuffer, len: nat)
    requires msg.Valid() && Headed(p, msg.View())
    ensures fresh(buf) && fresh(buf.store) && buf.Valid()
    ensures buf.Contents() == Encode(msg.View()) && len == |Encode(msg.View())|
    ensures Roomy(buf.store.Length, len)
  {
    buf := new ByteBuffer(1024);
    var a := AddHeader(buf, msg);
    ghost var t, i, k := BigEndian(msg.tid, 8), EncodeIds(msg.ids), BigEndian(msg.kind, 2);
    ghost var s := EncodeSections(msg.Listed());
    var d := AddSections(buf, msg);
    len := a + d;
    assert buf.Contents() == t + i + k + s;
    Associate(t + i, k, s);
    Associate(t, i, k + s);
  }

  // ---- Reading ------------------------------------------------------------------------------

  /** The receiving end of a connection: the bytes that have arrived and are not yet read. starved tells that the last
      read asked for more than that, and waits. */
  class Socket {
    var data: bytes
    var starved: bool

    constructor (data: bytes)
      ensures this.data == data && !starved
    {
      this.data, starved := data, false;
    }

    /** One read of n bytes under TRY: all of them, or a failure, or waiting for more. */
    method Read(n: nat) returns (r: Option<bytes>)
      modifies this
      ensures Reads(Take(old(data), n), r, data, starved)
    {
      starved := n > |data|;
      if n == 0 || starved {
        return None;
      }
      r := Some(data[..n]);
      data := data[n..];
    }
  }

  /** A method has read what the function parser reads, and has left what that leaves. */
  ghost predicate Reads<T>(want: Parse<T>, r: Option<T>, data: bytes, starved: bool) {
    match want
    case Got((v, rest)) => r == Some(v) && data == rest && !starved
    case Broken(rest) => r == None && data == rest && !starved
    case Short => r == None && starved
  }

  method ReadWord(sock: Socket, w: nat) returns (r: Option<nat>)
    requires w > 0
    modifies sock
    ensures Reads(ReadNumber(old(sock.data), w), r, sock.data, sock.starved)
  {
    var d := sock.Read(w);
    if d.None? {
      return None;
    }
    r := Some(Value(d.value));
  }

  method ReadText(sock: Socket) returns (r: Option<blob>)
    modifies sock
    ensures Reads(ReadBlock(old(sock.data)), r, sock.data, sock.starved)
  {
    var n := ReadWord(sock, 4);
    if n.None? {
      return None;
    }
    Pow256Widths();
    if n.value == 0 {
      return Some([]);
    }
    var d := sock.Read(n.value);
    if d.None? {
      return None;
    }
    r := Some(d.value);
  }

  method ReadNameField(sock: Socket) returns (r: Option<blob>)
    modifies sock
    ensures Reads(ReadName(old(sock.data)), r, sock.data, sock.starved)
  {
    var n := ReadWord(sock, 4);
    if n.None? {
      return None;
    }
    Pow256Widths();
    var d := sock.Read(n.value);
    if d.None? {
      return None;
    }
    r := Some(d.value);
  }

  method ReadCounterFields(sock: Socket) returns (r: Option<(uint32, uint32, uint32)>)
    modifies sock
    ensures Reads(ReadCounters(old(sock.data)), r, sock.data, sock.starved)
  {
    Pow256Widths();
    var modified := ReadWord(sock, 4);
    if modified.None? {
      return None;
    }
    var size := ReadWord(sock, 4);
    if size.None? {
      return None;
    }
    var replicas := ReadWord(sock, 4);
    if replicas.None? {
      return None;
    }
    r := Some((modified.value, size.value, replicas.value));
  }

  method ReadFileInfoFields(sock: Socket) returns (r: Option<FileInfo>)
    modifies sock
    ensures Reads(ReadFileInfo(old(sock.data)), r, sock.data, sock.starved)
  {
    var kind := sock.Read(1);
    if kind.None? {
      return None;
    }
    var path := ReadNameField(sock);
    if path.None? {
      return None;
    }
    var user := ReadNameField(sock);
    if user.None? {
      return None;
    }
    var c := ReadCounterFields(sock);
    if c.None? {
      return None;
    }
    r := Some(FileInfo(kind.value[0], path.value, user.value, c.value.0, c.value.1, c.value.2));
  }

  /** The switch on the section type. */
  method ReadSection(sock: Socket, tag: uint16) returns (r: Option<Section>)
    modifies sock
    ensures Reads(DecodeBody(tag, old(sock.data)), r, sock.data, sock.starved)
  {
    r := None;
    match tag {
      case 1 =>
        var n := ReadWord(sock, 4);
        if n.Some? {
          Pow256Widths();
          r := Some(Integer(FromWord(n.value)));
        }
      case 2 =>
        var d := ReadText(sock);
        if d.Some? {
          r := Some(Text(d.value));
        }
      case 3 =>
        var d := ReadText(sock);
        if d.Some? {
          r := Some(Binary(d.value));
        }
      case 4 =>
        var fi := ReadFileInfoFields(sock);
        if fi.Some? {
          r := Some(File(fi.value));
        }
      case _ =>
        sock.starved := false;
    }
  }

  /** The result of parsing a list after some of its entries were already read. */
  function Continue<T>(done: seq<T>, r: Parse<seq<T>>): Parse<seq<T>> {
    match r
    case Got((v, rest)) => Got((done + v, rest))
    case Broken(rest) => Broken(rest)
    case Short => Short
  }

  lemma ContinueNothing<T>(r: Parse<seq<T>>)
    ensures Continue([], r) == r
  {
    if r.Got? {
      assert [] + r.value.0 == r.value.0;
    }
  }

  lemma ContinueStep(done: seq<Section>, bs: bytes)
    ensures match Read16(bs)
            case Broken(rest) => Continue(done, DecodeSections(bs)) == Broken(rest)
            case Short => Continue(done, DecodeSections(bs)) == Short
            case Got((tag, t)) =>
              if tag == 0 then Continue(done, DecodeSections(bs)) == Got((done, t))
              else match DecodeBody(tag, t)
                case Broken(rest) => Continue(done, DecodeSections(bs)) == Broken(rest)
                case Short => Continue(done, DecodeSections(bs)) == Short
                case Got((s, u)) => Continue(done, DecodeSections(bs)) == Continue(done + [s], DecodeSections(u))
  {
    if Read16(bs).Got? {
      var (tag, t) := Read16(bs).value;
      if tag == 0 {
        assert done + [] == done;
      } else if DecodeBody(tag, t).Got? {
        var (s, u) := DecodeBody(tag, t).value;
        if DecodeSections(u).Got? {
          assert done + ([s] + DecodeSections(u).value.0) == (done + [s]) + DecodeSections(u).value.0;
        }
      }
    }
  }

  lemma ContinueIdsStep(done: seq<uint64>, bs: bytes, count: nat)
    ensures count == 0 ==> Continue(done, ReadIds(bs, count)) == Got((done, bs))
    ensures count > 0 ==>
              match Read64(bs)
              case Broken(rest) => Continue(done, ReadIds(bs, count)) == Broken(rest)
              case Short => Continue(done, ReadIds(bs, count)) == Short
              case Got((id, t)) => Continue(done, ReadIds(bs, count)) == Continue(done + [id], ReadIds(t, count - 1))
  {
    assert done + [] == done;
    if count > 0 && Read64(bs).Got? {
      var (id, t) := Read64(bs).value;
      if ReadIds(t, count - 1).Got? {
        var ids := ReadIds(t, count - 1).value.0;
        assert done + ([id] + ids) == (done + [id]) + ids;
      }
    }
  }

  method ReadIdFields(sock: Socket, count: nat) returns (r: Option<seq<uint64>>)
    modifies sock
    ensures Reads(ReadIds(old(sock.data), count), r, sock.data, sock.starved)
  {
    Pow256Widths();
    ghost var goal := ReadIds(sock.data, count);
    var ids: seq<uint64> := [];
    sock.starved := false;
    ContinueNothing(goal);
    for i := 0 to count
      invariant !sock.starved
      invariant goal == Continue(ids, ReadIds(sock.data, count - i))
    {
      ContinueIdsStep(ids, sock.data, count - i);
      var id := ReadWord(sock, 8);
      if id.None? {
        return None;
      }
      ids := ids + [id.value];
    }
    ContinueIdsStep(ids, sock.data, 0);
    r := Some(ids);
  }

  /** The section loop: one tag at a time until the end marker, growing the section array. */
  method ReadSections(sock: Socket, msg: Fsmsg) returns (ok: bool)
    requires msg.Valid() && msg.Listed() == []
    modifies sock, msg`sections
    ensures fresh(msg.sections) || msg.sections == old(msg.sections)
    ensures msg.Valid()
    ensures Reads(DecodeSections(old(sock.data)), if ok then Some(msg.Listed()) else None, sock.data, sock.starved)
  {
    ghost var goal := DecodeSections(sock.data);
    ContinueNothing(goal);
    while true
      invariant msg.Valid() && (fresh(msg.sections) || msg.sections == old(msg.sections))
      invariant goal == Continue(msg.Listed(), DecodeSections(sock.data))
      decreases |sock.data|
    {
      ContinueStep(msg.Listed(), sock.data);
      Pow256Widths();
      var tag := ReadWord(sock, 2);
      if tag.None? {
        return false;
      }
      if tag.value == 0 {
        return true;
      }
      var s := ReadSection(sock, tag.value);
      if s.None? {
        return false;
      }
      msg.AddSection(s.value);
    }
  }

  /** Reads one message from the connection; fails or waits where the function parser does, and then leaves the bytes
      that it leaves. */
  method FsmsgFromSocket(sock: Socket, p: Protocol) returns (msg: Fsmsg?)
    modifies sock
    ensures match Decode(p, old(sock.data))
            case Broken(rest) => msg == null && sock.data == rest && !sock.starved
            case Short => msg == null && sock.starved
            case Got((m, rest)) =>
              && msg != null && fresh(msg) && fresh(msg.sections) && msg.Valid() && msg.View() == m
              && sock.data == rest && !sock.starved
  {
    hide Value, DecodeSections, ReadIds;
    var m := new Fsmsg.Create(p);
    Pow256Widths();
    var tid := ReadWord(sock, 8);
    if tid.None? {
      return null;
    }
    var ids := ReadIdFields(sock, IdCount(p));
    if ids.None? {
      return null;
    }
    var kind := ReadWord(sock, 2);
    if kind.None? {
      return null;
    }
    m.tid, m.ids, m.kind := tid.value, ids.value, kind.value;
    var ok := ReadSections(sock, m);
    if !ok {
      return null;
    }
    msg := m;
  }
}
