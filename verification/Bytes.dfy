/** Fixed-width integers, their big-endian byte strings, and the byte-order calls of src/protomsg.c. */
module Bytes {
  type byte = n: int | 0 <= n < 0x100
  type uint16 = n: int | 0 <= n < 0x1_0000
  type uint32 = n: int | 0 <= n < 0x1_0000_0000
  type uint64 = n: int | 0 <= n < 0x1_0000_0000_0000_0000
  type int32 = n: int | -0x8000_0000 <= n < 0x8000_0000
  type bytes = seq<byte>

  /** A string literal of the program as its ASCII bytes. */
  function Ascii(s: string): (r: bytes)
    ensures |r| == |s|
  {
    seq(|s|, i requires 0 <= i < |s| => (s[i] as int) % 0x100)
  }

  function Pow256(w: nat): (r: nat)
    ensures r > 0
  {
    if w == 0 then 1 else 256 * Pow256(w - 1)
  }

  lemma Pow256Widths()
    ensures Pow256(1) == 0x100 && Pow256(2) == 0x1_0000
    ensures Pow256(4) == 0x1_0000_0000
    ensures Pow256(8) == 0x1_0000_0000_0000_0000
  {
    assert Pow256(1) == 256 * Pow256(0);
    assert Pow256(3) == 256 * Pow256(2);
    assert Pow256(5) == 256 * Pow256(4);
    assert Pow256(7) == 256 * Pow256(6);
  }

  /** The low w bytes of n, most significant first. */
  function BigEndian(n: nat, w: nat): (r: bytes)
    ensures |r| == w
  {
    if w == 0 then [] else BigEndian(n / 256, w - 1) + [n % 256]
  }

  /** The number a big-endian byte string stands for. */
  function Value(bs: bytes): (n: nat)
    ensures n < Pow256(|bs|)
  {
    if bs == [] then 0 else Value(bs[..|bs| - 1]) * 256 + bs[|bs| - 1]
  }

  lemma {:induction false} ValueOfBigEndian(n: nat, w: nat)
    requires n < Pow256(w)
    ensures Value(BigEndian(n, w)) == n
  {
    if w > 0 {
      ValueOfBigEndian(n / 256, w - 1);
      var bs := BigEndian(n, w);
      assert bs[..|bs| - 1] == BigEndian(n / 256, w - 1);
    }
  }

  lemma LastDigit(n: nat, b: byte)
    ensures (n * 256 + b) / 256 == n && (n * 256 + b) % 256 == b
  {
  }

  lemma {:induction false} BigEndianOfValue(bs: bytes)
    ensures BigEndian(Value(bs), |bs|) == bs
  {
    if bs != [] {
      var front, last := bs[..|bs| - 1], bs[|bs| - 1];
      BigEndianOfValue(front);
      LastDigit(Value(front), last);
      assert BigEndian(Value(bs), |bs|) == BigEndian(Value(front), |front|) + [last];
      assert bs == front + [last];
    }
  }

  /** Two's complement: how a 32-bit word carries a signed value. */
  function ToWord(i: int32): uint32 {
    if i < 0 then i + 0x1_0000_0000 else i
  }

  function FromWord(u: uint32): int32 {
    if u < 0x8000_0000 then u else u - 0x1_0000_0000
  }

  lemma Associate<T>(a: seq<T>, b: seq<T>, c: seq<T>)
    ensures (a + b) + c == a + (b + c)
  {
  }

  // ---- Host byte order ------------------------------------------------------------------

  datatype Host = LittleEndian | BigEndianHost

  function Reversed(bs: bytes): (r: bytes)
    ensures |r| == |bs|
  {
    seq(|bs|, i requires 0 <= i < |bs| => bs[|bs| - 1 - i])
  }

  /** The bytes of a w-byte unsigned object in the host's memory. */
  function InMemory(h: Host, n: nat, w: nat): (r: bytes)
    ensures |r| == w
  {
    if h.LittleEndian? then Reversed(BigEndian(n, w)) else BigEndian(n, w)
  }

  /** The unsigned object whose memory holds these bytes. */
  function FromMemory(h: Host, bs: bytes): (n: nat)
    ensures n < Pow256(|bs|)
  {
    if h.LittleEndian? then Value(Reversed(bs)) else Value(bs)
  }

  /** htonl and ntohl: the word whose memory image is the big-endian form of u. */
  function Htonl(h: Host, u: uint32): (r: uint32)
    ensures InMemory(h, r, 4) == BigEndian(u, 4)
  {
    Pow256Widths();
    var r := FromMemory(h, BigEndian(u, 4));
    if h.LittleEndian? then
      assert BigEndian(r, 4) == Reversed(BigEndian(u, 4)) by { BigEndianOfValue(Reversed(BigEndian(u, 4))); }
      assert Reversed(Reversed(BigEndian(u, 4))) == BigEndian(u, 4);
      r
    else
      assert BigEndian(r, 4) == BigEndian(u, 4) by { BigEndianOfValue(BigEndian(u, 4)); }
      r
  }

  function High(v: uint64): uint32 {
    v / 0x1_0000_0000
  }

  function Low(v: uint64): uint32 {
    v % 0x1_0000_0000
  }

  /** Shifting one word up and combining it with another. */
  function Combine(high: uint32, low: uint32): (v: uint64)
    ensures High(v) == high && Low(v) == low
  {
    high * 0x1_0000_0000 + low
  }

  function Swap64(h: Host, v: uint64): uint64 {
    Combine(Htonl(h, Low(v)), Htonl(h, High(v)))
  }

  lemma HtonlTwice(h: Host, u: uint32)
    ensures Htonl(h, Htonl(h, u)) == u
  {
    Pow256Widths();
    ValueOfBigEndian(u, 4);
    ValueOfBigEndian(Htonl(h, u), 4);
    var r := Htonl(h, u);
    if h.LittleEndian? {
      assert Reversed(BigEndian(r, 4)) == BigEndian(u, 4);
    }
  }

  lemma {:induction false} ValueOfConcat(a: bytes, b: bytes)
    ensures Value(a + b) == Value(a) * Pow256(|b|) + Value(b)
  {
    if b == [] {
      assert a + b == a;
    } else {
      var front := b[..|b| - 1];
      ValueOfConcat(a, front);
      assert (a + b)[..|a + b| - 1] == a + front;
      calc {
        Value(a + b);
        (Value(a) * Pow256(|front|) + Value(front)) * 256 + b[|b| - 1];
        Value(a) * Pow256(|front|) * 256 + Value(b);
        { TimesAssociates(Value(a), Pow256(|front|)); }
        Value(a) * Pow256(|b|) + Value(b);
      }
    }
  }

  lemma TimesAssociates(x: nat, p: nat)
    ensures x * p * 256 == x * (256 * p)
  {
  }

  lemma CombineHalves(v: uint64)
    ensures Combine(High(v), Low(v)) == v
  {
  }

  lemma ValueOfWords(high: uint32, low: uint32)
    ensures Value(BigEndian(high, 4) + BigEndian(low, 4)) == high * 0x1_0000_0000 + low
  {
    assert Pow256(4) == 0x1_0000_0000 by { Pow256Widths(); }
    var x, y := BigEndian(high, 4), BigEndian(low, 4);
    ValueOfBigEndian(high, 4);
    ValueOfBigEndian(low, 4);
    ValueOfConcat(x, y);
    assert Value(x + y) == Value(x) * Pow256(4) + Value(y);
  }

  /** Two words laid side by side are the big-endian form of the 64-bit value they make up. */
  lemma WordsSideBySide(high: uint32, low: uint32)
    ensures BigEndian(Combine(high, low), 8) == BigEndian(high, 4) + BigEndian(low, 4)
  {
    ValueOfWords(high, low);
    BigEndianOfValue(BigEndian(high, 4) + BigEndian(low, 4));
  }

  lemma ReversedConcat(a: bytes, b: bytes)
    ensures Reversed(a + b) == Reversed(b) + Reversed(a)
  {
  }

  lemma BigEndianInjective(a: uint32, b: uint32)
    requires BigEndian(a, 4) == BigEndian(b, 4)
    ensures a == b
  {
    Pow256Widths();
    ValueOfBigEndian(a, 4);
    ValueOfBigEndian(b, 4);
  }

  /** swap64 is its own inverse on either kind of host, so a peer of the same kind reads back the id. */
  lemma Swap64Twice(h: Host, v: uint64)
    ensures Swap64(h, Swap64(h, v)) == v
  {
    HtonlTwice(h, Low(v));
    HtonlTwice(h, High(v));
    CombineHalves(v);
  }

  /** The bytes swap64 puts on the wire: the two words in big-endian form, in the order the host stores them. */
  lemma Swap64Words(h: Host, v: uint64)
    ensures var high, low := BigEndian(High(v), 4), BigEndian(Low(v), 4);
            InMemory(h, Swap64(h, v), 8) == if h.LittleEndian? then high + low else low + high
  {
    var a, b := Htonl(h, Low(v)), Htonl(h, High(v));
    WordsSideBySide(a, b);
    ReversedConcat(BigEndian(a, 4), BigEndian(b, 4));
  }

  /** The ids go out big-endian, as the protocol asks, exactly on a little-endian host
      or when the two halves of the id are the same word. */
  lemma Swap64IsBigEndian(h: Host, v: uint64)
    ensures InMemory(h, Swap64(h, v), 8) == BigEndian(v, 8) <==> h.LittleEndian? || High(v) == Low(v)
  {
    Swap64Words(h, v);
    CombineHalves(v);
    WordsSideBySide(High(v), Low(v));
    var x, y := BigEndian(High(v), 4), BigEndian(Low(v), 4);
    if x + y == y + x {
      assert x == (x + y)[..4] == (y + x)[..4] == y;
      BigEndianInjective(High(v), Low(v));
    }
  }
}
