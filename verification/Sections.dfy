/** The cursor over a section list that the validators share (TESTST in src/protomsg.h),
    and one hop of a message over a connection. */
module Sections {
  import opened Wrappers
  import opened Bytes
  import opened Messages
  import opened Codec

  /** A list whose length fits the signed count section that precedes it. */
  type countable<T> = s: seq<T> | |s| < 0x8000_0000

  /** TESTST: the entry under the cursor has tag t; past the last entry only the end marker passes. */
  predicate Test(s: seq<Section>, i: nat, t: Tag) {
    if i >= |s| then t == TNone else TagOf(s[i]) == t
  }

  function Repeat(t: Tag, n: int): (r: seq<Tag>)
    ensures |r| == if n < 0 then 0 else n
    ensures forall i :: 0 <= i < |r| ==> r[i] == t
  {
    if n <= 0 then [] else seq(n, _ => t)
  }

  /** The value of section k when it is an integer. */
  function IntegerAt(s: seq<Section>, k: nat): int32 {
    if k < |s| && s[k].Integer? then s[k].value else 0
  }

  /** The first n entries pass TESTST for the first n tags of the shape. */
  predicate Passed(s: seq<Section>, shape: seq<Tag>, n: nat) {
    n <= |s| && n <= |shape| && forall k :: 0 <= k < n ==> TagOf(s[k]) == shape[k]
  }

  lemma {:induction false} ContentKeeps(s: seq<Section>, n: nat)
    requires n <= |s| && forall k :: 0 <= k < n ==> !s[k].NoNext?
    ensures n <= |Content(s)|
  {
    if n > 0 {
      ContentKeeps(s[1..], n - 1);
    }
  }

  /** A shape without end markers fits the content of a list exactly when the cursor can pass
      every tag of the shape and then meets the end. */
  lemma ShapeFits(s: seq<Section>, shape: seq<Tag>)
    requires TNone !in shape
    ensures Tags(Content(s)) == shape <==> Passed(s, shape, |shape|) && Test(s, |shape|, TNone)
  {
    var c := Content(s);
    if Passed(s, shape, |shape|) && Test(s, |shape|, TNone) {
      ContentKeeps(s, |shape|);
      assert forall k :: 0 <= k < |c| ==> c[k] in c && c[k] == s[k];
      assert Tags(c) == shape;
    }
    if Tags(c) == shape {
      assert forall k :: 0 <= k < |shape| ==> TagOf(s[k]) == Tags(c)[k];
    }
  }

  /** The counted loop of a validator: one TESTST per announced entry, none for a negative count. */
  method TestRepeated(s: seq<Section>, start: nat, count: int, t: Tag) returns (ok: bool, i: nat)
    requires start <= |s| && t != TNone
    ensures ok <==> start + |Repeat(t, count)| <= |s|
                    && forall k :: start <= k < start + |Repeat(t, count)| ==> TagOf(s[k]) == t
    ensures ok ==> i == start + |Repeat(t, count)|
  {
    i := start;
    var j := 0;
    while j < count
      invariant 0 <= j && (j <= count || j == 0) && i == start + j && i <= |s|
      invariant forall k :: start <= k < i ==> TagOf(s[k]) == t
    {
      if !Test(s, i, t) {
        return false, i;
      }
      i := i + 1;
      j := j + 1;
    }
    ok := true;
  }

  lemma {:induction false} ContentOfSealed(ss: seq<Section>)
    ensures Content(ss + [NoNext]) == Content(ss)
  {
    if ss == [] {
      assert ss + [NoNext] == [NoNext];
    } else {
      ContentOfSealed(ss[1..]);
      assert (ss + [NoNext])[1..] == ss[1..] + [NoNext];
    }
  }

  lemma {:induction false} ContentOfOpen(ss: seq<Section>)
    requires NoNext !in ss
    ensures Content(ss) == ss
  {
    if ss != [] {
      ContentOfOpen(ss[1..]);
    }
  }

  /** Up to the end marker, and at it, the integers read from the list are those of its content. */
  lemma ContentIntegers(s: seq<Section>, k: nat)
    requires k <= |Content(s)|
    ensures IntegerAt(Content(s), k) == IntegerAt(s, k)
  {
  }

  // ---- One hop --------------------------------------------------------------------------------

  /** What the receiver's parser makes of a message that was sealed, printed and sent. */
  function Transmit(p: Protocol, m: Msg): (r: Option<Msg>)
    ensures r.Some? ==> Headed(p, r.value)
  {
    Parsed(p, Encode(Seal(m)))
  }

  /** The first message on a connection, if it can be parsed. */
  function Parsed(p: Protocol, bs: bytes): (r: Option<Msg>)
    ensures r.Some? ==> Headed(p, r.value)
  {
    var r := Decode(p, bs);
    if r.Got? then Some(r.value.0) else None
  }

  lemma Transmitted(p: Protocol, m: Msg)
    requires Headed(p, m) && Open(m)
    ensures Transmit(p, m) == if AllReadable(m.sections) then Some(m) else None
  {
    RoundTrip(p, m, []);
    assert Encode(Seal(m)) + [] == Encode(Seal(m));
  }

  // ---- Lists of sections of one tag ------------------------------------------------------------

  function FileSections(files: seq<FileInfo>): (r: seq<Section>)
    ensures |r| == |files| && forall i :: 0 <= i < |r| ==> r[i] == File(files[i])
  {
    seq(|files|, i requires 0 <= i < |files| => File(files[i]))
  }

  function TextSections(texts: seq<blob>): (r: seq<Section>)
    ensures |r| == |texts| && forall i :: 0 <= i < |r| ==> r[i] == Text(texts[i])
  {
    seq(|texts|, i requires 0 <= i < |texts| => Text(texts[i]))
  }

  predicate Named(fi: FileInfo) {
    fi.path != [] && fi.user != []
  }

  predicate AllNamed(files: seq<FileInfo>) {
    forall i :: 0 <= i < |files| ==> Named(files[i])
  }

  function FilesIn(s: seq<Section>): (r: seq<FileInfo>)
    requires forall i :: 0 <= i < |s| ==> s[i].File?
    ensures FileSections(r) == s
  {
    seq(|s|, i requires 0 <= i < |s| => s[i].info)
  }

  function TextsIn(s: seq<Section>): (r: seq<blob>)
    requires forall i :: 0 <= i < |s| ==> s[i].Text?
    ensures TextSections(r) == s
  {
    seq(|s|, i requires 0 <= i < |s| => s[i].data)
  }

  lemma FileSectionsInjective(a: seq<FileInfo>, b: seq<FileInfo>)
    requires FileSections(a) == FileSections(b)
    ensures a == b
  {
    assert |a| == |FileSections(a)| == |FileSections(b)| == |b|;
    forall i | 0 <= i < |a| ensures a[i] == b[i] {
      assert FileSections(a)[i] == FileSections(b)[i];
    }
  }

  lemma TextSectionsInjective(a: seq<blob>, b: seq<blob>)
    requires TextSections(a) == TextSections(b)
    ensures a == b
  {
    assert |a| == |TextSections(a)| == |TextSections(b)| == |b|;
    forall i | 0 <= i < |a| ensures a[i] == b[i] {
      assert TextSections(a)[i] == TextSections(b)[i];
    }
  }

  lemma FileSectionsReadable(prefix: seq<Section>, files: seq<FileInfo>)
    requires AllReadable(prefix)
    ensures AllReadable(prefix + FileSections(files)) <==> AllNamed(files)
  {
    var all := prefix + FileSections(files);
    if AllReadable(all) {
      forall i | 0 <= i < |files| ensures Named(files[i]) {
        assert Readable(all[|prefix| + i]);
      }
    }
  }
}
