/** The directory tree of src/fsdird.c as a value: nodes are numbered in the order they were made, the
    root is node 0, and each node lists its children in sibling order. */
module DirTree {
  import opened Wrappers
  import opened Bytes
  import opened Messages
  import opened Paths

  /** owner is the slot of the file server that the node's fileserv pointer names, None for NULL. */
  datatype Node = Node(name: blob, kids: seq<nat>, owner: Option<nat>)
  type Tree = seq<Node>

  predicate KidsInRange(t: Tree) {
    forall i, k :: 0 <= i < |t| && 0 <= k < |t[i].kids| ==> i < t[i].kids[k] < |t|
  }

  /** No node is reached by two child or sibling links. */
  predicate OneLinkEach(t: Tree) {
    forall i, k, j, l ::
      (0 <= i < |t| && 0 <= k < |t[i].kids| && 0 <= j < |t| && 0 <= l < |t[j].kids| && t[i].kids[k] == t[j].kids[l])
      ==> i == j && k == l
  }

  predicate HasParent(t: Tree, c: nat) {
    exists i :: 0 <= i < |t| && c in t[i].kids
  }

  /** Tree shape: every node but the root hangs on exactly one link, from a node made before it. */
  predicate Valid(t: Tree) {
    && |t| > 0
    && KidsInRange(t)
    && OneLinkEach(t)
    && forall c :: 0 < c < |t| ==> HasParent(t, c)
  }

  /** The first sibling of that name. */
  function FindKid(t: Tree, kids: seq<nat>, name: bytes): (r: Option<nat>)
    requires forall k :: 0 <= k < |kids| ==> kids[k] < |t|
    ensures r.Some? ==> r.value in kids && t[r.value].name == name
    ensures r.None? <==> forall k :: 0 <= k < |kids| ==> t[kids[k]].name != name
  {
    if kids == [] then None
    else if t[kids[0]].name == name then Some(kids[0])
    else FindKid(t, kids[1..], name)
  }

  function Kid(t: Tree, n: nat, name: bytes): (r: Option<nat>)
    requires KidsInRange(t) && n < |t|
    ensures r.Some? ==> r.value < |t| && r.value in t[n].kids && t[r.value].name == name
  {
    FindKid(t, t[n].kids, name)
  }

  /** Exact lookup: follow the components by first match; nothing if one is missing. */
  function Walk(t: Tree, n: nat, q: seq<bytes>): (r: Option<nat>)
    requires KidsInRange(t) && n < |t|
    ensures r.Some? ==> r.value < |t|
    decreases |q|
  {
    if q == [] then Some(n) else
      match Kid(t, n, q[0])
      case None => None
      case Some(m) => Walk(t, m, q[1..])
  }

  function Find(t: Tree, q: seq<bytes>): (r: Option<nat>)
    requires Valid(t)
    ensures r.Some? ==> r.value < |t|
  {
    Walk(t, 0, q)
  }

  /** How many components the descent matches, and the node where it stops. */
  function Depth(t: Tree, n: nat, q: seq<bytes>): (d: nat)
    requires KidsInRange(t) && n < |t|
    ensures d <= |q|
    decreases |q|
  {
    if q == [] then 0 else
      match Kid(t, n, q[0])
      case None => 0
      case Some(m) => 1 + Depth(t, m, q[1..])
  }

  function Deepest(t: Tree, n: nat, q: seq<bytes>): (r: nat)
    requires KidsInRange(t) && n < |t|
    ensures r < |t|
    decreases |q|
  {
    if q == [] then n else
      match Kid(t, n, q[0])
      case None => n
      case Some(m) => Deepest(t, m, q[1..])
  }

  // ---- Lookup ------------------------------------------------------------------------------------

  lemma {:induction false} WalkConcat(t: Tree, n: nat, a: seq<bytes>, b: seq<bytes>)
    requires KidsInRange(t) && n < |t|
    ensures Walk(t, n, a + b) == match Walk(t, n, a)
                                 case None => None
                                 case Some(m) => Walk(t, m, b)
    decreases |a|
  {
    if a == [] {
      assert a + b == b;
    } else {
      assert (a + b)[0] == a[0] && (a + b)[1..] == a[1..] + b;
      match Kid(t, n, a[0])
      case None =>
      case Some(m) => WalkConcat(t, m, a[1..], b);
    }
  }

  lemma WalkLast(t: Tree, n: nat, q: seq<bytes>, x: bytes)
    requires KidsInRange(t) && n < |t|
    ensures Walk(t, n, q + [x]) == match Walk(t, n, q)
                                   case None => None
                                   case Some(m) => Kid(t, m, x)
  {
    WalkConcat(t, n, q, [x]);
    if Walk(t, n, q).Some? {
      var m := Walk(t, n, q).value;
      assert [x][1..] == [];
      if Kid(t, m, x).Some? {
        assert Walk(t, Kid(t, m, x).value, []) == Kid(t, m, x);
      }
    }
  }

  /** The descent stops at the node of the longest prefix that resolves; exact lookup answers only when that
      prefix is the whole path, and then the two agree. */
  lemma {:induction false} LongestPrefix(t: Tree, n: nat, q: seq<bytes>)
    requires KidsInRange(t) && n < |t|
    ensures var d := Depth(t, n, q);
            && Walk(t, n, q[..d]) == Some(Deepest(t, n, q))
            && (d < |q| ==> Kid(t, Deepest(t, n, q), q[d]).None?)
            && (forall k :: d < k <= |q| ==> Walk(t, n, q[..k]).None?)
            && (Walk(t, n, q) == if d == |q| then Some(Deepest(t, n, q)) else None)
    decreases |q|
  {
    if q == [] {
      assert q[..0] == [];
    } else {
      match Kid(t, n, q[0])
      case None =>
        assert q[..0] == [];
        forall k | 0 < k <= |q| ensures Walk(t, n, q[..k]).None? {
          assert q[..k][0] == q[0];
        }
      case Some(m) =>
        var tail := q[1..];
        LongestPrefix(t, m, tail);
        forall k | 0 < k <= |q| ensures Walk(t, n, q[..k]) == Walk(t, m, tail[..k - 1]) {
          assert q[..k][0] == q[0] && q[..k][1..] == tail[..k - 1];
        }
        assert q[..|q|] == q && tail[..|tail|] == tail;
    }
  }

  /** A node is reached by at most one list of components. */
  lemma {:induction false} OnePathEach(t: Tree, a: seq<bytes>, b: seq<bytes>)
    requires Valid(t) && Find(t, a).Some? && Find(t, a) == Find(t, b)
    ensures a == b
    decreases |a|
  {
    var c := Find(t, a).value;
    ReachedThroughParent(t, a);
    ReachedThroughParent(t, b);
    if a != [] && b != [] {
      var a', b' := a[..|a| - 1], b[..|b| - 1];
      var m, m' := Find(t, a').value, Find(t, b').value;
      SameParent(t, c, m, m');
      OnePathEach(t, a', b');
      assert a == a' + [a[|a| - 1]] && b == b' + [b[|b| - 1]];
    }
  }

  lemma SameParent(t: Tree, c: nat, m: nat, m': nat)
    requires Valid(t) && m < |t| && m' < |t| && c in t[m].kids && c in t[m'].kids
    ensures m == m'
  {
    var k :| 0 <= k < |t[m].kids| && t[m].kids[k] == c;
    var l :| 0 <= l < |t[m'].kids| && t[m'].kids[l] == c;
  }

  lemma ReachedThroughParent(t: Tree, q: seq<bytes>)
    requires Valid(t) && Find(t, q).Some?
    ensures q == [] <==> Find(t, q).value == 0
    ensures q != [] ==>
              var front, last := q[..|q| - 1], q[|q| - 1];
              && Find(t, front).Some?
              && Kid(t, Find(t, front).value, last) == Find(t, q)
              && Find(t, q).value in t[Find(t, front).value].kids
              && t[Find(t, q).value].name == last
  {
    if q != [] {
      var front, last := q[..|q| - 1], q[|q| - 1];
      assert q == front + [last];
      WalkLast(t, 0, front, last);
    }
  }

  /** Whatever resolves, its prefixes resolve. */
  lemma PrefixResolves(t: Tree, q: seq<bytes>, k: nat)
    requires Valid(t) && Find(t, q).Some? && k <= |q|
    ensures Find(t, q[..k]).Some?
  {
    assert q == q[..k] + q[k..];
    WalkConcat(t, 0, q[..k], q[k..]);
  }

  // ---- Adding a child ------------------------------------------------------------------------------

  /** The new node goes to the end of the parent's child list. */
  function Attach(t: Tree, p: nat, name: blob, owner: Option<nat>): (r: Tree)
    requires p < |t|
    ensures |r| == |t| + 1
  {
    t[p := t[p].(kids := t[p].kids + [|t|])] + [Node(name, [], owner)]
  }

  lemma AttachValid(t: Tree, p: nat, name: blob, owner: Option<nat>)
    requires Valid(t) && p < |t|
    ensures Valid(Attach(t, p, name, owner))
  {
    var r := Attach(t, p, name, owner);
    AttachRange(t, p, name, owner);
    AttachOneLink(t, p, name, owner);
    forall c | 0 < c < |r| ensures HasParent(r, c) {
      if c < |t| {
        assert HasParent(t, c);
        var i :| 0 <= i < |t| && c in t[i].kids;
        assert c in r[i].kids;
      } else {
        assert c in r[p].kids;
      }
    }
  }

  lemma AttachRange(t: Tree, p: nat, name: blob, owner: Option<nat>)
    requires KidsInRange(t) && p < |t|
    ensures KidsInRange(Attach(t, p, name, owner))
  {
  }

  lemma AttachOneLink(t: Tree, p: nat, name: blob, owner: Option<nat>)
    requires KidsInRange(t) && OneLinkEach(t) && p < |t|
    ensures OneLinkEach(Attach(t, p, name, owner))
  {
    var r := Attach(t, p, name, owner);
    forall i, k, j, l | 0 <= i < |r| && 0 <= k < |r[i].kids| && 0 <= j < |r| && 0 <= l < |r[j].kids|
      && r[i].kids[k] == r[j].kids[l]
      ensures i == j && k == l
    {
      assert i < |t| && j < |t|;
      assert (r[i].kids[k] == |t|) <==> (i == p && k == |t[p].kids|);
      assert (r[j].kids[l] == |t|) <==> (j == p && l == |t[p].kids|);
      if r[i].kids[k] != |t| {
        assert t[i].kids[k] == t[j].kids[l];
      }
    }
  }

  lemma {:induction false} FindKidKept(t: Tree, r: Tree, kids: seq<nat>, name: bytes)
    requires |t| <= |r| && forall i :: 0 <= i < |t| ==> r[i].name == t[i].name
    requires forall k :: 0 <= k < |kids| ==> kids[k] < |t|
    ensures FindKid(r, kids, name) == FindKid(t, kids, name)
  {
    if kids != [] {
      FindKidKept(t, r, kids[1..], name);
    }
  }

  lemma {:induction false} FindKidAppended(t: Tree, kids: seq<nat>, c: nat, name: bytes)
    requires forall k :: 0 <= k < |kids| ==> kids[k] < |t|
    requires c < |t|
    ensures FindKid(t, kids + [c], name) ==
            if FindKid(t, kids, name).Some? then FindKid(t, kids, name)
            else if t[c].name == name then Some(c) else None
  {
    if kids != [] {
      FindKidAppended(t, kids[1..], c, name);
      assert (kids + [c])[1..] == kids[1..] + [c];
    }
  }

  lemma AttachKid(t: Tree, p: nat, name: blob, owner: Option<nat>, n: nat, x: bytes)
    requires KidsInRange(t) && p < |t| && n <= |t|
    ensures var r := Attach(t, p, name, owner);
            && KidsInRange(r)
            && Kid(r, n, x) == if n == |t| then None
                               else if Kid(t, n, x).Some? then Kid(t, n, x)
                               else if n == p && x == name then Some(|t|) else None
  {
    var r := Attach(t, p, name, owner);
    AttachRange(t, p, name, owner);
    if n < |t| {
      FindKidKept(t, r, t[n].kids, x);
      if n == p {
        FindKidAppended(r, t[p].kids, |t|, x);
      }
    }
  }

  /** What attaching a node does to every lookup: what resolved resolves as before, and the one new path
      that resolves is the parent's path followed by the new name. */
  lemma {:induction false} AttachFind(t: Tree, a: seq<bytes>, name: blob, owner: Option<nat>, q: seq<bytes>)
    requires Valid(t) && Find(t, a).Some?
    ensures var r := Attach(t, Find(t, a).value, name, owner);
            && Valid(r)
            && Find(r, q) == if Find(t, q).Some? then Find(t, q)
                             else if q == a + [name] then Some(|t|) else None
    decreases |q|
  {
    var p := Find(t, a).value;
    var r := Attach(t, p, name, owner);
    AttachValid(t, p, name, owner);
    if q == [] {
    } else {
      var front, x := q[..|q| - 1], q[|q| - 1];
      assert q == front + [x];
      AttachFind(t, a, name, owner, front);
      WalkLast(t, 0, front, x);
      WalkLast(r, 0, front, x);
      if Find(r, front).Some? {
        AttachKid(t, p, name, owner, Find(r, front).value, x);
      }
      if Find(t, front) == Some(p) {
        OnePathEach(t, front, a);
      }
      if q == a + [name] {
        assert front == a && x == name;
      }
    }
  }

  // ---- Changing an owner -----------------------------------------------------------------------------

  function SetOwner(t: Tree, n: nat, s: nat): (r: Tree)
    requires n < |t|
    ensures |r| == |t|
  {
    t[n := t[n].(owner := Some(s))]
  }

  lemma SetOwnerValid(t: Tree, n: nat, s: nat)
    requires Valid(t) && n < |t|
    ensures Valid(SetOwner(t, n, s))
  {
    var r := SetOwner(t, n, s);
    assert forall i :: 0 <= i < |t| ==> r[i].kids == t[i].kids;
    forall c | 0 < c < |r| ensures HasParent(r, c) {
      assert HasParent(t, c);
      var i :| 0 <= i < |t| && c in t[i].kids;
      assert c in r[i].kids;
    }
  }

  lemma {:induction false} SetOwnerWalk(t: Tree, n: nat, s: nat, m: nat, q: seq<bytes>)
    requires KidsInRange(t) && n < |t| && m < |t|
    ensures KidsInRange(SetOwner(t, n, s))
    ensures Walk(SetOwner(t, n, s), m, q) == Walk(t, m, q)
    decreases |q|
  {
    var r := SetOwner(t, n, s);
    assert forall i :: 0 <= i < |t| ==> r[i].kids == t[i].kids && r[i].name == t[i].name;
    if q != [] {
      FindKidKept(t, r, t[m].kids, q[0]);
      if Kid(t, m, q[0]).Some? {
        SetOwnerWalk(t, n, s, Kid(t, m, q[0]).value, q[1..]);
      }
    }
  }

  // ---- Unique sibling names ----------------------------------------------------------------------------

  predicate UniqueSiblings(t: Tree)
    requires KidsInRange(t)
  {
    forall i, k, l :: 0 <= i < |t| && 0 <= k < l < |t[i].kids| ==> t[t[i].kids[k]].name != t[t[i].kids[l]].name
  }

  /** Attaching keeps sibling names unique exactly when the parent has no child of that name. */
  lemma AttachUnique(t: Tree, p: nat, name: blob, owner: Option<nat>)
    requires Valid(t) && UniqueSiblings(t) && p < |t|
    ensures KidsInRange(Attach(t, p, name, owner))
    ensures UniqueSiblings(Attach(t, p, name, owner)) <==> Kid(t, p, name).None?
  {
    var r := Attach(t, p, name, owner);
    AttachRange(t, p, name, owner);
    var kids := t[p].kids;
    assert r[p].kids == kids + [|t|];
    if Kid(t, p, name).Some? {
      var k :| 0 <= k < |kids| && kids[k] == Kid(t, p, name).value;
      assert r[r[p].kids[k]].name == name == r[r[p].kids[|kids|]].name;
    } else {
      forall i, k, l | 0 <= i < |r| && 0 <= k < l < |r[i].kids|
        ensures r[r[i].kids[k]].name != r[r[i].kids[l]].name
      {
        assert i < |t| && r[i].kids[k] == t[i].kids[k];
        if i == p && l == |kids| {
          assert t[kids[k]].name != name;
        } else {
          assert r[i].kids[l] == t[i].kids[l];
        }
      }
    }
  }

  lemma {:induction false} FindKidUnique(t: Tree, kids: seq<nat>, k: nat)
    requires k < |kids| && forall j :: 0 <= j < |kids| ==> kids[j] < |t|
    requires forall j, l :: 0 <= j < l < |kids| ==> t[kids[j]].name != t[kids[l]].name
    ensures FindKid(t, kids, t[kids[k]].name) == Some(kids[k])
  {
    if k > 0 {
      FindKidUnique(t, kids[1..], k - 1);
    }
  }

  /** With unique sibling names every node is found under the path that its ancestors' names spell. */
  lemma {:induction false} EveryNodeIsFound(t: Tree, c: nat) returns (q: seq<bytes>)
    requires Valid(t) && UniqueSiblings(t) && c < |t|
    ensures Find(t, q) == Some(c)
    decreases c
  {
    if c == 0 {
      q := [];
    } else {
      assert HasParent(t, c);
      var i :| 0 <= i < |t| && c in t[i].kids;
      var k :| 0 <= k < |t[i].kids| && t[i].kids[k] == c;
      var front := EveryNodeIsFound(t, i);
      FindKidUnique(t, t[i].kids, k);
      WalkLast(t, 0, front, t[c].name);
      q := front + [t[c].name];
    }
  }
}
