/** Path strings: strtok and strrchr as src/fsdird.c uses them (sections 7.21.5.8 and 7.21.5.5 of
    ISO/IEC 9899:1999), against a splitting of the path at every slash. */
module Paths {
  import opened Wrappers
  import opened Bytes
  import opened Messages

  const SLASH: byte := 47

  /** The C string that a length-delimited field holds: strndup stops at the first zero byte. */
  function CString(d: blob): (r: blob)
    ensures r <= d && 0 !in r
    ensures |r| < |d| ==> d[|r|] == 0
  {
    if d == [] || d[0] == 0 then [] else
      var r := CString(d[1..]);
      [d[0]] + r
  }

  lemma {:induction false} CStringOfText(d: blob)
    requires 0 !in d
    ensures CString(d) == d
  {
    if d != [] {
      CStringOfText(d[1..]);
    }
  }

  function SkipSlashes(p: bytes): (r: bytes)
    ensures |r| <= |p| && (r == [] || r[0] != SLASH)
  {
    if p != [] && p[0] == SLASH then SkipSlashes(p[1..]) else p
  }

  function FirstRun(p: bytes): (t: bytes)
    ensures t <= p && SLASH !in t
    ensures |t| < |p| ==> p[|t|] == SLASH
  {
    if p == [] || p[0] == SLASH then [] else
      var t := FirstRun(p[1..]);
      [p[0]] + t
  }

  /** One call of strtok: the next token and where the following call resumes. */
  function Strtok(p: bytes): (r: Option<(bytes, bytes)>)
    ensures r.Some? ==> |r.value.1| < |p|
  {
    var q := SkipSlashes(p);
    if q == [] then None else
      var t := FirstRun(q);
      Some((t, if |t| < |q| then q[|t| + 1..] else []))
  }

  /** The components that repeated calls of strtok deliver. */
  function Tokens(p: bytes): seq<bytes>
    decreases |p|
  {
    match Strtok(p)
    case None => []
    case Some((t, rest)) => [t] + Tokens(rest)
  }

  /** strrchr(path, '/'): where the last slash is. */
  function LastSlash(p: bytes): (k: nat)
    requires SLASH in p
    ensures k < |p| && p[k] == SLASH && forall i :: k < i < |p| ==> p[i] != SLASH
    decreases |p|
  {
    if p[|p| - 1] == SLASH then |p| - 1 else LastSlash(p[..|p| - 1])
  }

  /** strrchr(path, '/') + 1. */
  function AfterLastSlash(p: bytes): (r: bytes)
    requires SLASH in p
    ensures |r| < |p| && SLASH !in r
  {
    p[LastSlash(p) + 1..]
  }

  // ---- The reference: split at every slash -----------------------------------------------------

  function SplitAll(p: bytes): (r: seq<bytes>)
    ensures |r| > 0
    ensures forall i :: 0 <= i < |r| ==> SLASH !in r[i]
  {
    if p == [] then [[]]
    else
      var r := SplitAll(p[1..]);
      if p[0] == SLASH then [[]] + r else [[p[0]] + r[0]] + r[1..]
  }

  function NonEmpty(ts: seq<bytes>): (r: seq<bytes>)
    ensures forall i :: 0 <= i < |r| ==> r[i] in ts && r[i] != []
  {
    if ts == [] then [] else (if ts[0] == [] then [] else [ts[0]]) + NonEmpty(ts[1..])
  }

  lemma {:induction false} NonEmptyConcat(a: seq<bytes>, b: seq<bytes>)
    ensures NonEmpty(a + b) == NonEmpty(a) + NonEmpty(b)
  {
    if a == [] {
      assert a + b == b;
    } else {
      var head := if a[0] == [] then [] else [a[0]];
      NonEmptyConcat(a[1..], b);
      assert (a + b)[0] == a[0] && (a + b)[1..] == a[1..] + b;
      assert NonEmpty(a + b) == head + (NonEmpty(a[1..]) + NonEmpty(b));
      Associate(head, NonEmpty(a[1..]), NonEmpty(b));
    }
  }

  lemma {:induction false} SplitAtSlash(a: bytes, b: bytes)
    ensures SplitAll(a + [SLASH] + b) == SplitAll(a) + SplitAll(b)
  {
    var p := a + [SLASH] + b;
    if a == [] {
      assert p[0] == SLASH && p[1..] == b;
    } else {
      SplitAtSlash(a[1..], b);
      assert p[0] == a[0] && p[1..] == a[1..] + [SLASH] + b;
      var x, y := SplitAll(a[1..]), SplitAll(b);
      if a[0] == SLASH {
        Associate([[]], x, y);
      } else {
        assert (x + y)[0] == x[0] && (x + y)[1..] == x[1..] + y;
        Associate([[a[0]] + x[0]], x[1..], y);
      }
    }
  }

  lemma {:induction false} SplitOfRun(t: bytes)
    requires SLASH !in t
    ensures SplitAll(t) == [t]
  {
    if t != [] {
      SplitOfRun(t[1..]);
      assert t == [t[0]] + t[1..];
    }
  }

  lemma NoTokens()
    ensures Tokens([]) == []
  {
    assert Strtok([]).None?;
  }

  lemma LeadingSlash(p: bytes)
    requires p != [] && p[0] == SLASH
    ensures Tokens(p) == Tokens(p[1..])
    ensures NonEmpty(SplitAll(p)) == NonEmpty(SplitAll(p[1..]))
  {
    assert Strtok(p) == Strtok(p[1..]);
    assert SplitAll(p)[0] == [] && SplitAll(p)[1..] == SplitAll(p[1..]);
  }

  /** Where strtok resumes after the first run of a path. */
  function AfterRun(p: bytes): bytes {
    if |FirstRun(p)| < |p| then p[|FirstRun(p)| + 1..] else []
  }

  lemma FirstToken(p: bytes)
    requires p != [] && p[0] != SLASH
    ensures FirstRun(p) != [] && Tokens(p) == [FirstRun(p)] + Tokens(AfterRun(p))
  {
    assert SkipSlashes(p) == p;
    assert Strtok(p) == Some((FirstRun(p), AfterRun(p)));
  }

  lemma CutAtRun(p: bytes, t: bytes, k: nat)
    requires k == |t| < |p| && t <= p && p[k] == SLASH
    ensures p == t + [SLASH] + p[k + 1..]
  {
  }

  lemma OnePiece(t: bytes)
    requires t != []
    ensures NonEmpty([t]) == [t]
  {
    assert [t][1..] == [];
    assert [t] + [] == [t];
  }

  /** strtok delivers exactly the nonempty pieces between slashes, in order. */
  lemma {:induction false} TokensAreComponents(p: bytes)
    ensures Tokens(p) == NonEmpty(SplitAll(p))
    decreases |p|
  {
    if p == [] {
      NoTokens();
      assert SplitAll(p)[1..] == [];
    } else if p[0] == SLASH {
      TokensAreComponents(p[1..]);
      LeadingSlash(p);
    } else {
      var t := FirstRun(p);
      FirstToken(p);
      SplitOfRun(t);
      OnePiece(t);
      if |t| < |p| {
        var rest := AfterRun(p);
        CutAtRun(p, t, |t|);
        TokensAreComponents(rest);
        SplitAtSlash(t, rest);
        NonEmptyConcat([t], SplitAll(rest));
      } else {
        assert p == t;
        NoTokens();
      }
    }
  }

  /** A path component as a directory entry can carry it. */
  predicate IsName(t: bytes) {
    t != [] && SLASH !in t
  }

  predicate AllNames(ts: seq<bytes>) {
    forall i :: 0 <= i < |ts| ==> IsName(ts[i])
  }

  lemma TokensAreNames(p: bytes)
    ensures AllNames(Tokens(p))
  {
    TokensAreComponents(p);
  }

  /** Components on the two sides of a slash are independent. */
  lemma TokensAtSlash(a: bytes, b: bytes)
    ensures Tokens(a + [SLASH] + b) == Tokens(a) + Tokens(b)
  {
    TokensAreComponents(a + [SLASH] + b);
    TokensAreComponents(a);
    TokensAreComponents(b);
    SplitAtSlash(a, b);
    NonEmptyConcat(SplitAll(a), SplitAll(b));
  }

  lemma TrailingSlash(a: bytes)
    ensures Tokens(a + [SLASH]) == Tokens(a)
  {
    assert a + [SLASH] == a + [SLASH] + [];
    TokensAtSlash(a, []);
    NoTokens();
  }

  /** Writing a slash twice changes nothing. */
  lemma RepeatedSlash(a: bytes, b: bytes)
    ensures Tokens(a + [SLASH] + [SLASH] + b) == Tokens(a + [SLASH] + b)
  {
    TokensAtSlash(a + [SLASH], b);
    TrailingSlash(a);
    TokensAtSlash(a, b);
  }

  function Join(ts: seq<bytes>): bytes {
    if ts == [] then [] else Join(ts[..|ts| - 1]) + [SLASH] + ts[|ts| - 1]
  }

  lemma TokensOfName(t: bytes)
    requires IsName(t)
    ensures Tokens(t) == [t]
  {
    TokensAreComponents(t);
    SplitOfRun(t);
    OnePiece(t);
  }

  /** Splitting a joined path gives the components back. */
  lemma {:induction false} TokensOfJoin(ts: seq<bytes>)
    requires AllNames(ts)
    ensures Tokens(Join(ts)) == ts
  {
    hide Tokens;
    if ts == [] {
      NoTokens();
    } else {
      var front, last := ts[..|ts| - 1], ts[|ts| - 1];
      TokensOfJoin(front);
      TokensAtSlash(Join(front), last);
      TokensOfName(last);
      assert ts == front + [last];
    }
  }

  predicate EndsInSlash(p: bytes) {
    p != [] && p[|p| - 1] == SLASH
  }

  /** The text after the last slash against the components: it is the last of them unless the path ends in a
      slash, when it is empty. */
  lemma NameIsLastToken(p: bytes)
    requires SLASH in p
    ensures var name, front := AfterLastSlash(p), p[..LastSlash(p)];
            && (EndsInSlash(p) <==> name == [])
            && (!EndsInSlash(p) ==> Tokens(p) == Tokens(front) + [name] && IsName(name))
            && (EndsInSlash(p) ==> Tokens(p) == Tokens(front))
  {
    var name, front := AfterLastSlash(p), p[..LastSlash(p)];
    assert p == front + [SLASH] + name;
    if name == [] {
      assert p == front + [SLASH];
      TrailingSlash(front);
    } else {
      assert p[|p| - 1] == name[|name| - 1];
      TokensAtSlash(front, name);
      TokensOfName(name);
    }
  }

  /** strtok's last component is the text after the last slash exactly when the path does not end in a slash. */
  lemma LastTokenIsName(p: bytes)
    requires SLASH in p
    ensures (Tokens(p) != [] && Tokens(p)[|Tokens(p)| - 1] == AfterLastSlash(p)) <==> !EndsInSlash(p)
  {
    NameIsLastToken(p);
    TokensAreNames(p);
  }

  /** Two lists of pieces put together: the last piece of the one and the first of the other become one. */
  function Merge(x: seq<bytes>, y: seq<bytes>): (r: seq<bytes>)
    requires x != [] && y != []
    ensures r != []
  {
    x[..|x| - 1] + ([x[|x| - 1] + y[0]] + y[1..])
  }

  lemma MergeCons(t: bytes, x: seq<bytes>, y: seq<bytes>)
    requires x != [] && y != []
    ensures Merge([t] + x, y) == [t] + Merge(x, y)
  {
    assert ([t] + x)[..|x|] == [t] + x[..|x| - 1];
    Associate([t], x[..|x| - 1], [x[|x| - 1] + y[0]] + y[1..]);
  }

  lemma MergeFirst(t: bytes, x: seq<bytes>, y: seq<bytes>)
    requires x != [] && y != []
    ensures Merge([t + x[0]] + x[1..], y) == [t + Merge(x, y)[0]] + Merge(x, y)[1..]
  {
    if |x| == 1 {
      Associate(t, x[0], y[0]);
      assert Merge(x, y) == [x[0] + y[0]] + y[1..];
      assert [t + x[0]] + x[1..] == [t + x[0]];
      assert Merge([t + x[0]], y) == [t + x[0] + y[0]] + y[1..];
    } else {
      assert x == [x[0]] + x[1..];
      MergeCons(x[0], x[1..], y);
      MergeCons(t + x[0], x[1..], y);
    }
  }

  lemma MergeNothing(y: seq<bytes>)
    requires y != []
    ensures Merge([[]], y) == y
  {
    assert [] + y[0] == y[0];
  }

  lemma {:induction false} SplitConcat(a: bytes, b: bytes)
    ensures SplitAll(a + b) == Merge(SplitAll(a), SplitAll(b))
  {
    hide Merge;
    if a == [] {
      assert a + b == b;
      MergeNothing(SplitAll(b));
    } else {
      SplitConcat(a[1..], b);
      assert (a + b)[0] == a[0] && (a + b)[1..] == a[1..] + b;
      if a[0] == SLASH {
        MergeCons([], SplitAll(a[1..]), SplitAll(b));
      } else {
        MergeFirst([a[0]], SplitAll(a[1..]), SplitAll(b));
      }
    }
  }

  lemma {:induction false} LastPiece(p: bytes)
    ensures SplitAll(p)[|SplitAll(p)| - 1] == [] <==> p == [] || EndsInSlash(p)
  {
    if p != [] {
      LastPiece(p[1..]);
      assert p[1..] != [] ==> p[|p| - 1] == p[1..][|p| - 2];
    }
  }

  lemma NonEmptyPiece(t: bytes)
    ensures NonEmpty([t]) == if t == [] then [] else [t]
  {
    assert [t][1..] == [];
  }

  /** The components of a path behind a base, by the pieces on both sides of where they meet. */
  lemma PiecesMeet(base: bytes, p: bytes)
    ensures var x, y := SplitAll(base), SplitAll(p);
            var front, last, first, rest := x[..|x| - 1], x[|x| - 1], y[0], y[1..];
            && Tokens(base) == NonEmpty(front) + NonEmpty([last])
            && Tokens(p) == NonEmpty([first]) + NonEmpty(rest)
            && Tokens(base + p) == NonEmpty(front) + (NonEmpty([last + first]) + NonEmpty(rest))
  {
    hide Tokens, NonEmpty, SplitAll;
    var x, y := SplitAll(base), SplitAll(p);
    var front, last, first, rest := x[..|x| - 1], x[|x| - 1], y[0], y[1..];
    TokensAreComponents(base + p);
    TokensAreComponents(base);
    TokensAreComponents(p);
    SplitConcat(base, p);
    assert x == front + [last] && y == [first] + rest;
    NonEmptyConcat(front, [last]);
    NonEmptyConcat([first], rest);
    NonEmptyConcat(front, [last + first] + rest);
    NonEmptyConcat([last + first], rest);
  }

  /** A path behind a base directory names the base's components followed by its own if and only if a slash separates
      the two (or one of them is empty). */
  lemma LocalPath(base: bytes, p: bytes)
    ensures Tokens(base + p) == Tokens(base) + Tokens(p) <==>
              base == [] || p == [] || EndsInSlash(base) || p[0] == SLASH
  {
    hide Tokens, NonEmpty;
    var x, y := SplitAll(base), SplitAll(p);
    PiecesMeet(base, p);
    LastPiece(base);
    MeetingPieces(NonEmpty(x[..|x| - 1]), x[|x| - 1], y[0], NonEmpty(y[1..]));
  }

  /** Two pieces that meet make as many components together as apart exactly when one of them is empty. */
  lemma MeetingPieces(f: seq<bytes>, last: bytes, first: bytes, r: seq<bytes>)
    ensures f + (NonEmpty([last + first]) + r) == (f + NonEmpty([last])) + (NonEmpty([first]) + r) <==>
              last == [] || first == []
  {
    NonEmptyPiece(last);
    NonEmptyPiece(first);
    NonEmptyPiece(last + first);
    hide NonEmpty;
    if last == [] {
      assert last + first == first;
      assert f + [] == f;
    } else if first == [] {
      assert last + first == last;
      assert [] + r == r;
      Associate(f, [last], r);
    } else {
      assert |f + (NonEmpty([last + first]) + r)| == |f| + 1 + |r|;
      assert |(f + NonEmpty([last])) + (NonEmpty([first]) + r)| == |f| + 2 + |r|;
    }
  }
}
