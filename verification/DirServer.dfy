/** The request handlers of the directory server (src/fsdird.c) as functions on the tree, each taken as one
    atomic step, and what they keep over every sequence of requests. */
module DirServer {
  import opened Wrappers
  import opened Bytes
  import opened Messages
  import opened Codec
  import opened Sections
  import opened Paths
  import opened DirTree
  import Dcp

  /** What the directory remembers of a registered file server. */
  datatype ServerInfo = ServerInfo(id: uint64, address: blob)

  /** The server with that address, as connecting to a host name finds it. */
  function HostNamed(infos: seq<ServerInfo>, h: blob): (r: Option<nat>)
    ensures r.Some? ==> r.value < |infos| && infos[r.value].address == h
    ensures r.None? <==> forall i :: 0 <= i < |infos| ==> infos[i].address != h
  {
    if infos == [] then None
    else if infos[|infos| - 1].address == h then Some(|infos| - 1)
    else HostNamed(infos[..|infos| - 1], h)
  }

  predicate DistinctAddresses(infos: seq<ServerInfo>) {
    forall i, j :: 0 <= i < j < |infos| ==> infos[i].address != infos[j].address
  }

  lemma {:induction false} OwnHost(infos: seq<ServerInfo>, t: nat)
    requires DistinctAddresses(infos) && t < |infos|
    ensures HostNamed(infos, infos[t].address) == Some(t)
  {
    if t < |infos| - 1 {
      OwnHost(infos[..|infos| - 1], t);
    }
  }

  const DIRECTORY_FSID: uint64 := 1333333337
  const USER: blob := Ascii("user")

  function Refusal(code: int32): Dcp.Body {
    Dcp.Failure(code, if code == ERR_EXISTS then Ascii("file already exists") else Ascii("file doesn't exist"))
  }

  function NodeInfo(name: blob): FileInfo {
    FileInfo(0, name, USER, 0, 0, 0)
  }

  function InitialTree(): (t: Tree)
    ensures Valid(t) && UniqueSiblings(t)
    ensures t[0].name != []
  {
    [Node([SLASH], [], None)]
  }

  predicate OwnersKnown(t: Tree, n: nat) {
    forall i :: 0 <= i < |t| && t[i].owner.Some? ==> t[i].owner.value < n
  }

  // ---- The handlers ----------------------------------------------------------------------------

  /** The path a request is about. */
  function PathOf(b: Dcp.Body): blob {
    match b
    case Create(info) => CString(info.path)
    case Update(info) => CString(info.path)
    case Read(_, path) => CString(path)
    case GetReplicas(path) => CString(path)
    case _ => []
  }

  function Lookup(t: Tree, path: bytes): (r: Option<nat>)
    requires Valid(t)
    ensures r.Some? ==> r.value < |t|
  {
    Find(t, Tokens(path))
  }

  function ChildInfos(t: Tree, n: nat): (r: seq<FileInfo>)
    requires KidsInRange(t) && n < |t|
    ensures |r| == |t[n].kids|
  {
    seq(|t[n].kids|, k requires 0 <= k < |t[n].kids| => NodeInfo(t[t[n].kids[k]].name))
  }

  /** What the handlers take for granted: a directory to be listed exists and its entries can be counted;
      a path to be created contains a slash. */
  predicate Demands(t: Tree, b: Dcp.Body)
    requires Valid(t)
  {
    match b
    case Read(_, _) => Lookup(t, PathOf(b)).Some? && |t[Lookup(t, PathOf(b)).value].kids| < 0x8000_0000
    case Create(_) => Lookup(t, PathOf(b)).None? ==> SLASH in PathOf(b)
    case _ => true
  }

  /** add_node: the new node is named after the text behind the last slash and goes under the deepest
      existing ancestor. */
  function AddNode(t: Tree, path: blob, owner: Option<nat>): Tree
    requires Valid(t) && SLASH in path
  {
    Attach(t, Deepest(t, 0, Tokens(path)), AfterLastSlash(path), owner)
  }

  /** One request of the server in the given slot: the new tree and the payload of the reply, if there is one. */
  function Handle(t: Tree, infos: seq<ServerInfo>, slot: nat, b: Dcp.Body): (r: (Tree, Option<Dcp.Body>))
    requires Valid(t) && OwnersKnown(t, |infos|) && slot < |infos| && Demands(t, b)
  {
    var n := Lookup(t, PathOf(b));
    match b
    case Create(_) =>
      if n.Some? then (t, Some(Refusal(ERR_EXISTS)))
      else (AddNode(t, PathOf(b), Some(slot)), Some(Dcp.FileList([NodeInfo(AfterLastSlash(PathOf(b)))])))
    case Update(_) =>
      if n.None? then (t, Some(Refusal(ERR_FILENOTFOUND)))
      else (SetOwner(t, n.value, slot), Some(Dcp.FileList([NodeInfo(t[n.value].name)])))
    case Read(_, _) => (t, Some(Dcp.FileList(ChildInfos(t, n.value))))
    case GetReplicas(_) =>
      if n.Some? && t[n.value].owner.Some? then (t, Some(Dcp.ReplicaStatus([infos[t[n.value].owner.value].address])))
      else (t, Some(Refusal(ERR_FILENOTFOUND)))
    case _ => (t, None)
  }

  /** What a message of the server in the given slot does: the new tree and the payload of the answer, if any;
      None if it breaks what its handler takes for granted. A list of sections that is not of its kind is
      answered with an error. */
  function Answer(t: Tree, infos: seq<ServerInfo>, slot: nat, m: Msg): (r: Option<(Tree, Option<Dcp.Body>)>)
    requires Valid(t) && OwnersKnown(t, |infos|) && slot < |infos|
  {
    if !Dcp.Accepts(m) then
      Some((t, Some(Dcp.Failure(ERR_MSG, Ascii("section validation error")))))
    else if m.kind !in {DCP_READ, DCP_CREATE, DCP_UPDATE, DCP_GET_REPLICAS} then Some((t, None))
    else if !Demands(t, Dcp.BodyOf(m)) then None
    else Some(Handle(t, infos, slot, Dcp.BodyOf(m)))
  }

  /** The same with the bytes of the answer, which carries the ids of the request and of its sender. */
  function ServeMessage(t: Tree, infos: seq<ServerInfo>, slot: nat, m: Msg): (r: Option<(Tree, bytes)>)
    requires Valid(t) && OwnersKnown(t, |infos|) && slot < |infos|
  {
    match Answer(t, infos, slot, m)
    case None => None
    case Some(a) => Some((a.0, if a.1.None? then [] else Reply(m.tid, infos[slot].id, a.1.value)))
  }

  function Reply(tid: uint64, id: uint64, b: Dcp.Body): bytes {
    Encode(Seal(Dcp.Message(tid, id, DIRECTORY_FSID, b)))
  }

  /** The path under which a created node comes to lie. */
  function Placed(t: Tree, path: bytes): seq<bytes>
    requires Valid(t) && SLASH in path
  {
    Tokens(path)[..Depth(t, 0, Tokens(path))] + [AfterLastSlash(path)]
  }

  /** The component list whose owner a request sets, if any. */
  function Target(t: Tree, b: Dcp.Body): Option<seq<bytes>>
    requires Valid(t) && Demands(t, b)
  {
    var n := Lookup(t, PathOf(b));
    match b
    case Create(_) =>
      if n.None? && Find(t, Placed(t, PathOf(b))).None? then Some(Placed(t, PathOf(b))) else None
    case Update(_) => if n.Some? then Some(Tokens(PathOf(b))) else None
    case _ => None
  }

  // ---- One request -----------------------------------------------------------------------------

  /** Creating a path changes the outcome of at most one lookup: the placed path, if it was free, now finds the
      new node; every other path finds what it found before. */
  lemma AddNodeFind(t: Tree, path: blob, owner: Option<nat>, q: seq<bytes>)
    requires Valid(t) && SLASH in path
    ensures var r := AddNode(t, path, owner);
            && Valid(r)
            && r[|t|].owner == owner && r[|t|].name == AfterLastSlash(path)
            && Find(r, q) == if Find(t, q).Some? then Find(t, q)
                             else if q == Placed(t, path) then Some(|t|) else None
  {
    var ts := Tokens(path);
    LongestPrefix(t, 0, ts);
    AttachFind(t, ts[..Depth(t, 0, ts)], AfterLastSlash(path), owner, q);
  }

  /** The directory that should hold the path exists, and the path names something in it. */
  predicate ParentExists(t: Tree, path: bytes)
    requires Valid(t)
  {
    var ts := Tokens(path);
    !EndsInSlash(path) && ts != [] && Find(t, ts[..|ts| - 1]).Some?
  }

  lemma ParentNotSlash(t: Tree, path: bytes)
    requires Valid(t)
    ensures ParentExists(t, path) ==> !EndsInSlash(path)
  {
  }

  /** Where a new path is placed: at the path itself exactly when its parent exists. */
  lemma PlacedAtPath(t: Tree, path: bytes)
    requires Valid(t) && SLASH in path && Lookup(t, path).None?
    ensures Placed(t, path) == Tokens(path) <==> ParentExists(t, path)
  {
    var ts := Tokens(path);
    var d := Depth(t, 0, ts);
    LongestPrefix(t, 0, ts);
    NameIsLastToken(path);
    TokensAreNames(path);
    assert d < |ts|;
    if ParentExists(t, path) {
      assert d >= |ts| - 1;
      assert ts == ts[..|ts| - 1] + [AfterLastSlash(path)];
    }
    if Placed(t, path) == ts {
      assert |Placed(t, path)| == d + 1;
      assert d == |ts| - 1;
      assert ts[|ts| - 1] == AfterLastSlash(path);
      assert IsName(ts[|ts| - 1]);
    }
  }

  /** A newly created path is found afterwards exactly when its parent exists (and it does not end in a slash). */
  lemma CreatedIsFound(t: Tree, infos: seq<ServerInfo>, slot: nat, info: FileInfo)
    requires Valid(t) && OwnersKnown(t, |infos|) && slot < |infos| && Demands(t, Dcp.Create(info))
    requires Lookup(t, CString(info.path)).None?
    ensures var path, r := CString(info.path), Handle(t, infos, slot, Dcp.Create(info)).0;
            && Valid(r)
            && (Lookup(r, path).Some? <==> ParentExists(t, path))
            && (ParentExists(t, path) ==> Lookup(r, path) == Some(|t|) && r[|t|].owner == Some(slot))
  {
    var path := CString(info.path);
    AddNodeFind(t, path, Some(slot), Tokens(path));
    PlacedAtPath(t, path);
  }

  lemma TwoLevelPath()
    ensures var path: blob := [SLASH, 97, SLASH, 98];
            && Tokens(path) == [[97], [98]] && Tokens([SLASH, 98]) == [[98]]
            && AfterLastSlash(path) == [98]
  {
    var path: bytes := [SLASH, 97, SLASH, 98];
    var a: bytes, b: bytes := [97], [98];
    assert path == ([] + [SLASH] + a) + [SLASH] + b;
    assert [SLASH, 98] == [] + [SLASH] + b;
    TokensAtSlash([] + [SLASH] + a, b);
    TokensAtSlash([], a);
    TokensAtSlash([], b);
    TokensOfName(a);
    TokensOfName(b);
    NoTokens();
    assert LastSlash(path) == 2;
  }

  lemma EmptyDirectory(q: seq<bytes>)
    ensures var t := InitialTree();
            && KidsInRange(t)
            && (q != [] ==> Find(t, q).None? && Depth(t, 0, q) == 0)
  {
    var t := InitialTree();
    assert t[0].kids == [];
    if q != [] {
      assert Kid(t, 0, q[0]).None?;
    }
  }

  /** A concrete case: with an empty directory, creating /a/b makes /b appear and leaves /a/b unknown. */
  lemma MissingParentMisplaces(slot: nat)
    ensures var path, t := [SLASH, 97, SLASH, 98], InitialTree();
            && Lookup(t, path).None?
            && var r := AddNode(t, path, Some(slot));
            && Valid(r)
            && Lookup(r, path).None?
            && Lookup(r, [SLASH, 98]) == Some(1)
  {
    var t, path := InitialTree(), [SLASH, 97, SLASH, 98];
    TwoLevelPath();
    EmptyDirectory(Tokens(path));
    EmptyDirectory(Tokens([SLASH, 98]));
    assert Placed(t, path) == [] + [[98]] == [[98]];
    AddNodeFind(t, path, Some(slot), Tokens(path));
    AddNodeFind(t, path, Some(slot), Tokens([SLASH, 98]));
  }

  lemma AddNodeKeeps(t: Tree, path: blob, slot: nat, servers: nat)
    requires Valid(t) && OwnersKnown(t, servers) && slot < servers && SLASH in path
    ensures var r := AddNode(t, path, Some(slot));
            Valid(r) && OwnersKnown(r, servers) && |r| == |t| + 1
  {
    AttachValid(t, Deepest(t, 0, Tokens(path)), AfterLastSlash(path), Some(slot));
  }

  lemma SetOwnerKeeps(t: Tree, n: nat, slot: nat, servers: nat)
    requires Valid(t) && OwnersKnown(t, servers) && slot < servers && n < |t|
    ensures var r := SetOwner(t, n, slot);
            Valid(r) && OwnersKnown(r, servers) && |r| == |t|
  {
    SetOwnerValid(t, n, slot);
  }

  /** Handlers keep tree shape and known owners, and add at most one node. */
  lemma HandleKeeps(t: Tree, infos: seq<ServerInfo>, slot: nat, b: Dcp.Body)
    requires Valid(t) && OwnersKnown(t, |infos|) && slot < |infos| && Demands(t, b)
    ensures var r := Handle(t, infos, slot, b).0;
            Valid(r) && OwnersKnown(r, |infos|) && |t| <= |r| <= |t| + 1
  {
    var n := Lookup(t, PathOf(b));
    if b.Create? && n.None? {
      AddNodeKeeps(t, PathOf(b), slot, |infos|);
    } else if b.Update? && n.Some? {
      SetOwnerKeeps(t, n.value, slot, |infos|);
    } else {
      assert Handle(t, infos, slot, b).0 == t;
    }
  }

  predicate NodesNamed(t: Tree) {
    forall i :: 0 <= i < |t| ==> t[i].name != []
  }

  /** The root has a name from the start and keeps it. */
  predicate RootNamed(t: Tree) {
    |t| > 0 && t[0].name != []
  }

  /** A node that a path leads to has a name, whatever else there is. */
  lemma LookedUpIsNamed(t: Tree, path: bytes)
    requires Valid(t) && RootNamed(t)
    ensures Lookup(t, path).Some? ==> t[Lookup(t, path).value].name != []
  {
    if Lookup(t, path).Some? {
      ReachedThroughParent(t, Tokens(path));
      TokensAreNames(path);
    }
  }

  /** Every node keeps a name exactly when no new path that ends in a slash is created; the root does in any case. */
  lemma HandleNames(t: Tree, infos: seq<ServerInfo>, slot: nat, b: Dcp.Body)
    requires Valid(t) && OwnersKnown(t, |infos|) && slot < |infos| && Demands(t, b)
    ensures RootNamed(t) ==> RootNamed(Handle(t, infos, slot, b).0)
    ensures NodesNamed(t) ==>
              (NodesNamed(Handle(t, infos, slot, b).0) <==>
                 !(b.Create? && Lookup(t, PathOf(b)).None? && EndsInSlash(PathOf(b))))
  {
    var n := Lookup(t, PathOf(b));
    if b.Create? && n.None? {
      NameIsLastToken(PathOf(b));
      NamesAfterAttach(t, Deepest(t, 0, Tokens(PathOf(b))), AfterLastSlash(PathOf(b)), Some(slot));
    }
  }

  lemma NamesAfterAttach(t: Tree, p: nat, name: blob, owner: Option<nat>)
    requires p < |t|
    ensures RootNamed(t) ==> RootNamed(Attach(t, p, name, owner))
    ensures NodesNamed(t) ==> (NodesNamed(Attach(t, p, name, owner)) <==> name != [])
  {
    var r := Attach(t, p, name, owner);
    assert r[|t|].name == name;
  }

  /** The file list that answers an update names its one file, and so does the one that answers a creation, unless the
      path ends in a slash. */
  lemma NamedReply(t: Tree, infos: seq<ServerInfo>, slot: nat, b: Dcp.Body)
    requires Valid(t) && OwnersKnown(t, |infos|) && slot < |infos| && Demands(t, b) && RootNamed(t)
    requires b.Create? || b.Update?
    ensures var reply := Handle(t, infos, slot, b).1;
            && reply.Some?
            && (reply.value.FileList? ==>
                  && |reply.value.files| == 1 && reply.value == Dcp.FileList([reply.value.files[0]])
                  && (Named(reply.value.files[0]) <==> !(b.Create? && EndsInSlash(PathOf(b)))))
  {
    LookedUpIsNamed(t, PathOf(b));
    if b.Create? && Lookup(t, PathOf(b)).None? {
      NameIsLastToken(PathOf(b));
    }
  }

  /** What resolves keeps resolving to the same node, whatever is created, with or without its parent. */
  lemma HandleFind(t: Tree, infos: seq<ServerInfo>, slot: nat, b: Dcp.Body, q: seq<bytes>)
    requires Valid(t) && OwnersKnown(t, |infos|) && slot < |infos| && Demands(t, b)
    ensures var r := Handle(t, infos, slot, b).0;
            && Valid(r)
            && Find(r, q) == if Find(t, q).Some? then Find(t, q)
                             else if Target(t, b) == Some(q) then Some(|t|) else None
  {
    hide Tokens, LastSlash, Attach, SetOwner, Depth;
    HandleKeeps(t, infos, slot, b);
    match b {
      case Create(_) =>
        if Lookup(t, PathOf(b)).None? {
          AddNodeFind(t, PathOf(b), Some(slot), q);
        }
      case Update(_) =>
        if Lookup(t, PathOf(b)).Some? {
          SetOwnerWalk(t, Lookup(t, PathOf(b)).value, slot, 0, q);
        }
      case _ =>
    }
  }

  /** The owner found under a path. */
  function OwnerAt(t: Tree, q: seq<bytes>): Option<nat>
    requires Valid(t)
  {
    if Find(t, q).Some? then t[Find(t, q).value].owner else None
  }

  lemma AddNodeOwner(t: Tree, path: blob, slot: nat, q: seq<bytes>)
    requires Valid(t) && SLASH in path
    ensures var r := AddNode(t, path, Some(slot));
            && Valid(r)
            && OwnerAt(r, q) ==
                 if q == Placed(t, path) && Find(t, q).None? then Some(slot) else OwnerAt(t, q)
  {
    AddNodeFind(t, path, Some(slot), q);
  }

  lemma SetOwnerOwner(t: Tree, p: seq<bytes>, slot: nat, q: seq<bytes>)
    requires Valid(t) && Find(t, p).Some?
    ensures var r := SetOwner(t, Find(t, p).value, slot);
            && Valid(r)
            && OwnerAt(r, q) == if q == p then Some(slot) else OwnerAt(t, q)
  {
    var n := Find(t, p).value;
    SetOwnerValid(t, n, slot);
    SetOwnerWalk(t, n, slot, 0, q);
    if Find(t, q) == Some(n) {
      OnePathEach(t, q, p);
    }
  }

  /** A request gives its target to the requesting server and changes no other owner. */
  lemma HandleOwner(t: Tree, infos: seq<ServerInfo>, slot: nat, b: Dcp.Body, q: seq<bytes>)
    requires Valid(t) && OwnersKnown(t, |infos|) && slot < |infos| && Demands(t, b)
    ensures var r := Handle(t, infos, slot, b).0;
            && Valid(r)
            && OwnerAt(r, q) == if Target(t, b) == Some(q) then Some(slot) else OwnerAt(t, q)
  {
    var n := Lookup(t, PathOf(b));
    if b.Create? && n.None? {
      AddNodeOwner(t, PathOf(b), slot, q);
    } else if b.Update? && n.Some? {
      SetOwnerOwner(t, Tokens(PathOf(b)), slot, q);
    } else {
      assert Handle(t, infos, slot, b).0 == t && Target(t, b).None?;
    }
  }

  lemma AddNodeUnique(t: Tree, path: blob, slot: nat)
    requires Valid(t) && UniqueSiblings(t) && SLASH in path
    ensures var r := AddNode(t, path, Some(slot));
            && Valid(r)
            && (UniqueSiblings(r) <==> Find(t, Placed(t, path)).None?)
  {
    var ts := Tokens(path);
    var a, name := ts[..Depth(t, 0, ts)], AfterLastSlash(path);
    LongestPrefix(t, 0, ts);
    WalkLast(t, 0, a, name);
    AttachValid(t, Deepest(t, 0, ts), name, Some(slot));
    AttachUnique(t, Deepest(t, 0, ts), name, Some(slot));
  }

  lemma SetOwnerUnique(t: Tree, n: nat, slot: nat)
    requires Valid(t) && UniqueSiblings(t) && n < |t|
    ensures Valid(SetOwner(t, n, slot)) && UniqueSiblings(SetOwner(t, n, slot))
  {
    SetOwnerValid(t, n, slot);
    var r := SetOwner(t, n, slot);
    assert forall i :: 0 <= i < |t| ==> r[i].kids == t[i].kids && r[i].name == t[i].name;
  }

  /** Sibling names stay unique exactly when the request is not a creation that lands on a taken name. */
  lemma HandleUnique(t: Tree, infos: seq<ServerInfo>, slot: nat, b: Dcp.Body)
    requires Valid(t) && OwnersKnown(t, |infos|) && slot < |infos| && Demands(t, b) && UniqueSiblings(t)
    ensures var r := Handle(t, infos, slot, b).0;
            && Valid(r)
            && (UniqueSiblings(r) <==> !(b.Create? && Lookup(t, PathOf(b)).None? && Target(t, b).None?))
  {
    var n := Lookup(t, PathOf(b));
    if b.Create? && n.None? {
      AddNodeUnique(t, PathOf(b), slot);
    } else if b.Update? && n.Some? {
      SetOwnerUnique(t, n.value, slot);
    } else {
      assert Handle(t, infos, slot, b).0 == t;
    }
  }

  /** What the directory is after the creation of a new path: everything that resolved is as it was, with its owner;
      at most one path is new; and under an existing parent that is the path asked for, owned by the server. */
  ghost predicate HasNew(t: Tree, u: Tree, path: blob, slot: nat)
    requires Valid(t)
  {
    && Valid(u)
    && (forall q :: Find(t, q).Some? ==> Find(u, q) == Find(t, q) && OwnerAt(u, q) == OwnerAt(t, q))
    && (forall p, q :: Find(t, p).None? && Find(u, p).Some? && Find(t, q).None? && Find(u, q).Some? ==> p == q)
    && (ParentExists(t, path) ==> Find(u, Tokens(path)).Some? && OwnerAt(u, Tokens(path)) == Some(slot))
  }

  lemma AddedIsNew(t: Tree, path: blob, slot: nat)
    requires Valid(t) && SLASH in path && Lookup(t, path).None?
    ensures HasNew(t, AddNode(t, path, Some(slot)), path, slot)
  {
    hide Find, Tokens, Placed, ParentExists, AddNode;
    var u := AddNode(t, path, Some(slot));
    PlacedAtPath(t, path);
    AddNodeFind(t, path, Some(slot), []);
    forall q
      ensures Find(u, q) == if Find(t, q).Some? then Find(t, q) else if q == Placed(t, path) then Some(|t|) else None
      ensures OwnerAt(u, q) == if q == Placed(t, path) && Find(t, q).None? then Some(slot) else OwnerAt(t, q)
    {
      AddNodeFind(t, path, Some(slot), q);
      AddNodeOwner(t, path, slot, q);
    }
  }

  /** Under an existing parent the new node is the last of the parent's children, and named as the path asks for. */
  lemma AddedIsLast(t: Tree, path: blob, slot: nat) returns (p: nat)
    requires Valid(t) && SLASH in path && Lookup(t, path).None? && ParentExists(t, path)
    ensures Tokens(path) != [] && p < |t| && Find(t, Tokens(path)[..|Tokens(path)| - 1]) == Some(p)
    ensures var u := AddNode(t, path, Some(slot));
            && |u| == |t| + 1 && u[p].kids == t[p].kids + [|t|]
            && u[|t|].name == Tokens(path)[|Tokens(path)| - 1]
            && forall n :: 0 <= n < |t| ==> u[n].name == t[n].name
  {
    hide Tokens;
    var ts := Tokens(path);
    LongestPrefix(t, 0, ts);
    NameIsLastToken(path);
    p := Deepest(t, 0, ts);
    assert Depth(t, 0, ts) == |ts| - 1;
  }

  /** What the directory is after a write: every path resolves as before, and only the owner of this one is new. */
  ghost predicate HasOwner(t: Tree, u: Tree, path: blob, slot: nat)
    requires Valid(t)
  {
    && Valid(u)
    && (forall q :: Find(u, q) == Find(t, q))
    && (forall q :: OwnerAt(u, q) == if q == Tokens(path) then Some(slot) else OwnerAt(t, q))
  }

  lemma WriterOwns(t: Tree, path: blob, slot: nat)
    requires Valid(t) && Lookup(t, path).Some?
    ensures HasOwner(t, SetOwner(t, Lookup(t, path).value, slot), path, slot)
  {
    hide Find, Tokens, OwnerAt, SetOwner;
    var n := Lookup(t, path).value;
    SetOwnerValid(t, n, slot);
    forall q
      ensures Find(SetOwner(t, n, slot), q) == Find(t, q)
      ensures OwnerAt(SetOwner(t, n, slot), q) == if q == Tokens(path) then Some(slot) else OwnerAt(t, q)
    {
      SetOwnerFind(t, n, slot, q);
      SetOwnerOwner(t, Tokens(path), slot, q);
    }
  }

  lemma SetOwnerFind(t: Tree, n: nat, slot: nat, q: seq<bytes>)
    requires Valid(t) && n < |t|
    ensures Valid(SetOwner(t, n, slot)) && Find(SetOwner(t, n, slot), q) == Find(t, q)
  {
    SetOwnerValid(t, n, slot);
    SetOwnerWalk(t, n, slot, 0, q);
  }

  // ---- The tree refines a map ------------------------------------------------------------------

  /** The tree stands for a map from component lists to owners. */
  ghost predicate Represents(t: Tree, m: map<seq<bytes>, Option<nat>>)
    requires Valid(t)
  {
    forall q ::
      && (q in m <==> Find(t, q).Some?)
      && (q in m ==> m[q] == OwnerAt(t, q))
  }

  lemma RepresentsAfter(t: Tree, m: map<seq<bytes>, Option<nat>>, r: Tree, target: Option<seq<bytes>>, slot: nat)
    requires Valid(t) && Valid(r) && Represents(t, m)
    requires forall q :: Find(r, q).Some? <==> Find(t, q).Some? || target == Some(q)
    requires forall q :: OwnerAt(r, q) == if target == Some(q) then Some(slot) else OwnerAt(t, q)
    ensures Represents(r, if target.None? then m else m[target.value := Some(slot)])
  {
    var m' := if target.None? then m else m[target.value := Some(slot)];
    forall q
      ensures q in m' <==> Find(r, q).Some?
      ensures q in m' ==> m'[q] == OwnerAt(r, q)
    {
      assert q in m <==> Find(t, q).Some?;
      assert OwnerAt(r, q) == if target == Some(q) then Some(slot) else OwnerAt(t, q);
    }
  }

  /** On the map, every request is one insertion at its target, or nothing. */
  lemma HandleRefinesMap(t: Tree, m: map<seq<bytes>, Option<nat>>, infos: seq<ServerInfo>, slot: nat, b: Dcp.Body)
    requires Valid(t) && OwnersKnown(t, |infos|) && slot < |infos| && Demands(t, b)
    requires Represents(t, m)
    ensures Valid(Handle(t, infos, slot, b).0)
    ensures Represents(Handle(t, infos, slot, b).0,
                       if Target(t, b).None? then m else m[Target(t, b).value := Some(slot)])
  {
    var r := Handle(t, infos, slot, b).0;
    HandleKeeps(t, infos, slot, b);
    forall q
      ensures Find(r, q).Some? <==> Find(t, q).Some? || Target(t, b) == Some(q)
      ensures OwnerAt(r, q) == if Target(t, b) == Some(q) then Some(slot) else OwnerAt(t, q)
    {
      TargetResolves(t, infos, slot, b, q);
      HandleOwner(t, infos, slot, b, q);
    }
    RepresentsAfter(t, m, r, Target(t, b), slot);
  }

  lemma TargetResolves(t: Tree, infos: seq<ServerInfo>, slot: nat, b: Dcp.Body, q: seq<bytes>)
    requires Valid(t) && OwnersKnown(t, |infos|) && slot < |infos| && Demands(t, b)
    ensures Valid(Handle(t, infos, slot, b).0)
    ensures Find(Handle(t, infos, slot, b).0, q).Some? <==> Find(t, q).Some? || Target(t, b) == Some(q)
  {
    HandleFind(t, infos, slot, b, q);
  }

  /** On the map, the replies are lookups: creation is refused exactly for a key, update exactly for a non-key,
      and a replica request is answered with the address of the key's owner; under an existing parent a new
      path is its own target. */
  lemma RepliesRefineMap(t: Tree, m: map<seq<bytes>, Option<nat>>, infos: seq<ServerInfo>, slot: nat, b: Dcp.Body)
    requires Valid(t) && OwnersKnown(t, |infos|) && slot < |infos| && Demands(t, b)
    requires Represents(t, m)
    ensures var reply, q := Handle(t, infos, slot, b).1, Tokens(PathOf(b));
            && (b.Create? ==> (reply == Some(Refusal(ERR_EXISTS)) <==> q in m))
            && (b.Create? && q !in m && ParentExists(t, PathOf(b)) ==> Target(t, b) == Some(q))
            && (b.Update? ==> (reply == Some(Refusal(ERR_FILENOTFOUND)) <==> q !in m))
            && (b.GetReplicas? ==>
                  reply == Some(if q in m && m[q].Some? && m[q].value < |infos|
                                then Dcp.ReplicaStatus([infos[m[q].value].address])
                                else Refusal(ERR_FILENOTFOUND)))
  {
    var q := Tokens(PathOf(b));
    assert q in m <==> Find(t, q).Some?;
    if b.Create? && Lookup(t, PathOf(b)).None? {
      PlacedAtPath(t, PathOf(b));
    }
  }

  lemma AnswerKeeps(t: Tree, infos: seq<ServerInfo>, slot: nat, m: Msg)
    requires Valid(t) && OwnersKnown(t, |infos|) && slot < |infos| && Answer(t, infos, slot, m).Some?
    ensures var u := Answer(t, infos, slot, m).value.0;
            Valid(u) && OwnersKnown(u, |infos|) && |t| <= |u| <= |t| + 1 && (RootNamed(t) ==> RootNamed(u))
  {
    if Dcp.Accepts(m) && m.kind in {DCP_READ, DCP_CREATE, DCP_UPDATE, DCP_GET_REPLICAS} {
      HandleKeeps(t, infos, slot, Dcp.BodyOf(m));
      HandleNames(t, infos, slot, Dcp.BodyOf(m));
    }
  }

  lemma ServeMessageKeeps(t: Tree, infos: seq<ServerInfo>, slot: nat, m: Msg)
    requires Valid(t) && OwnersKnown(t, |infos|) && slot < |infos| && ServeMessage(t, infos, slot, m).Some?
    ensures var u := ServeMessage(t, infos, slot, m).value.0;
            Valid(u) && OwnersKnown(u, |infos|)
  {
    AnswerKeeps(t, infos, slot, m);
  }

  /** The whole service of one connection: messages are served until one cannot be parsed or breaks what its
      handler takes for granted, which ends the thread, or until there are no more, when it waits; the answers follow
      each other on the way back. The last part tells whether the thread still waits. */
  function ServeStream(t: Tree, infos: seq<ServerInfo>, slot: nat, bs: bytes): (Tree, bytes, bool)
    requires Valid(t) && OwnersKnown(t, |infos|) && slot < |infos|
    decreases |bs|
  {
    match Decode(DCP, bs)
    case Broken(_) => (t, [], false)
    case Short => (t, [], true)
    case Got((m, rest)) =>
      match ServeMessage(t, infos, slot, m)
      case None => (t, [], false)
      case Some((u, answer)) =>
        ServeMessageKeeps(t, infos, slot, m);
        var (v, more, waits) := ServeStream(u, infos, slot, rest);
        (v, answer + more, waits)
  }

  /** A message at the front of the stream that can be parsed. */
  lemma MessageServed(t: Tree, infos: seq<ServerInfo>, slot: nat, m: Msg, more: bytes)
    requires Valid(t) && OwnersKnown(t, |infos|) && slot < |infos|
    requires Headed(DCP, m) && Open(m) && AllReadable(m.sections)
    ensures var served, all := ServeMessage(t, infos, slot, m), ServeStream(t, infos, slot, Encode(Seal(m)) + more);
            if served.None? then all == (t, [], false)
            else
              var (u, answer) := served.value;
              && Valid(u) && OwnersKnown(u, |infos|)
              && var rest := ServeStream(u, infos, slot, more);
                 all == (rest.0, answer + rest.1, rest.2)
  {
    hide ServeMessage, Encode, Decode, Valid, OwnersKnown;
    RoundTrip(DCP, m, more);
    if ServeMessage(t, infos, slot, m).Some? {
      ServeMessageKeeps(t, infos, slot, m);
    }
  }

  /** A request at the front is handled, and its answer, with its transaction, comes before those of what follows. */
  lemma RequestServed(t: Tree, infos: seq<ServerInfo>, slot: nat, m: Msg, more: bytes)
    requires Valid(t) && OwnersKnown(t, |infos|) && slot < |infos|
    requires Headed(DCP, m) && Open(m) && AllReadable(m.sections)
    requires Dcp.Accepts(m) && m.kind in {4, 5, 6, 12} && Demands(t, Dcp.BodyOf(m))
    ensures var (u, b) := Handle(t, infos, slot, Dcp.BodyOf(m));
            && b.Some? && Valid(u) && OwnersKnown(u, |infos|)
            && var rest := ServeStream(u, infos, slot, more);
               ServeStream(t, infos, slot, Encode(Seal(m)) + more) ==
                 (rest.0, Encode(Seal(Dcp.Message(m.tid, infos[slot].id, 1333333337, b.value))) + rest.1, rest.2)
  {
    hide ServeStream, Encode, Valid, OwnersKnown, Dcp.Accepts, Dcp.BodyOf, Demands, Tokens;
    MessageServed(t, infos, slot, m, more);
  }

  /** A message that is not of its kind is answered with an error, one of another kind is passed over, and neither
      changes anything. */
  lemma OtherServed(t: Tree, infos: seq<ServerInfo>, slot: nat, m: Msg, more: bytes)
    requires Valid(t) && OwnersKnown(t, |infos|) && slot < |infos|
    requires Headed(DCP, m) && Open(m) && AllReadable(m.sections)
    requires !Dcp.Accepts(m) || m.kind !in {4, 5, 6, 12}
    ensures var error := Dcp.Failure(9, Ascii("section validation error"));
            var answer := if Dcp.Accepts(m) then []
                          else Encode(Seal(Dcp.Message(m.tid, infos[slot].id, 1333333337, error)));
            var rest := ServeStream(t, infos, slot, more);
            ServeStream(t, infos, slot, Encode(Seal(m)) + more) == (rest.0, answer + rest.1, rest.2)
  {
    hide ServeStream, Encode, Valid, OwnersKnown, Dcp.Accepts, Dcp.BodyOf, Demands, Tokens, Ascii;
    MessageServed(t, infos, slot, m, more);
  }

  /** A message that cannot be parsed ends the service, and what follows is not read; without one the thread waits. */
  lemma UnparsedServed(t: Tree, infos: seq<ServerInfo>, slot: nat, bs: bytes)
    requires Valid(t) && OwnersKnown(t, |infos|) && slot < |infos| && !Decode(DCP, bs).Got?
    ensures ServeStream(t, infos, slot, bs) == (t, [], Decode(DCP, bs).Short?)
  {
  }

  /** What a creation or an update that succeeds is answered with: the one file, under the last component of its
      path. */
  lemma ListedName(t: Tree, infos: seq<ServerInfo>, slot: nat, b: Dcp.Body)
    requires Valid(t) && OwnersKnown(t, |infos|) && slot < |infos| && Demands(t, b) && (b.Create? || b.Update?)
    requires Tokens(PathOf(b)) != [] && (b.Create? ==> !EndsInSlash(PathOf(b)))
    ensures var reply, ts := Handle(t, infos, slot, b).1, Tokens(PathOf(b));
            && reply.Some?
            && (reply.value.FileList? <==> (b.Update? <==> Lookup(t, PathOf(b)).Some?))
            && (reply.value.FileList? ==>
                  && |reply.value.files| == 1 && reply.value.files[0].path == ts[|ts| - 1]
                  && reply.value.files[0].user == Ascii("user"))
  {
    hide Ascii, LastSlash;
    var ts := Tokens(PathOf(b));
    if b.Update? && Lookup(t, PathOf(b)).Some? {
      ReachedThroughParent(t, ts);
    } else if b.Create? && Lookup(t, PathOf(b)).None? {
      NameIsLastToken(PathOf(b));
    }
  }

  ghost predicate StillResolves(t: Tree, u: Tree)
    requires Valid(t) && Valid(u)
  {
    forall q :: Find(t, q).Some? ==> Find(u, q) == Find(t, q)
  }

  /** Whatever message is served, what resolves keeps resolving to the same node. */
  lemma AnswerResolves(t: Tree, infos: seq<ServerInfo>, slot: nat, m: Msg)
    requires Valid(t) && OwnersKnown(t, |infos|) && slot < |infos| && Answer(t, infos, slot, m).Some?
    ensures var u := Answer(t, infos, slot, m).value.0;
            Valid(u) && StillResolves(t, u)
  {
    AnswerKeeps(t, infos, slot, m);
    if Dcp.Accepts(m) && m.kind in {DCP_READ, DCP_CREATE, DCP_UPDATE, DCP_GET_REPLICAS} {
      forall q | Find(t, q).Some? ensures Find(Answer(t, infos, slot, m).value.0, q) == Find(t, q) {
        HandleFind(t, infos, slot, Dcp.BodyOf(m), q);
      }
    }
  }

  // ---- Every sequence of requests ----------------------------------------------------------------

  datatype Request = Request(slot: nat, body: Dcp.Body)

  /** The tree after the requests, in any interleaving of the servers that made them; None if one of them breaks
      what its handler takes for granted. */
  function Run(t: Tree, infos: seq<ServerInfo>, reqs: seq<Request>): (r: Option<Tree>)
    requires Valid(t) && OwnersKnown(t, |infos|)
    ensures r.Some? ==> Valid(r.value) && OwnersKnown(r.value, |infos|)
  {
    if reqs == [] then Some(t) else
      var last := reqs[|reqs| - 1];
      match Run(t, infos, reqs[..|reqs| - 1])
      case None => None
      case Some(u) =>
        if last.slot < |infos| && Demands(u, last.body) then
          HandleKeeps(u, infos, last.slot, last.body);
          Some(Handle(u, infos, last.slot, last.body).0)
        else None
  }

  /** Over every run a path that once resolves keeps resolving to the same node. */
  lemma {:induction false} ResolvedStays(t: Tree, infos: seq<ServerInfo>, reqs: seq<Request>, q: seq<bytes>)
    requires Valid(t) && OwnersKnown(t, |infos|) && Run(t, infos, reqs).Some? && Find(t, q).Some?
    ensures Find(Run(t, infos, reqs).value, q) == Find(t, q)
  {
    if reqs != [] {
      var last, front := reqs[|reqs| - 1], reqs[..|reqs| - 1];
      ResolvedStays(t, infos, front, q);
      HandleFind(Run(t, infos, front).value, infos, last.slot, last.body, q);
    }
  }

  /** The map that the requests build up from a new directory: one insertion for each request with a target. */
  function MapAfter(infos: seq<ServerInfo>, reqs: seq<Request>): map<seq<bytes>, Option<nat>>
    requires Run(InitialTree(), infos, reqs).Some?
  {
    if reqs == [] then map[[] := None] else
      var last, front := reqs[|reqs| - 1], reqs[..|reqs| - 1];
      var target := Target(Run(InitialTree(), infos, front).value, last.body);
      if target.None? then MapAfter(infos, front) else MapAfter(infos, front)[target.value := Some(last.slot)]
  }

  /** After any interleaving of requests on a new directory, the heap of nodes stands for that map. */
  lemma {:induction false} RunRefinesMap(infos: seq<ServerInfo>, reqs: seq<Request>)
    requires Run(InitialTree(), infos, reqs).Some?
    ensures Represents(Run(InitialTree(), infos, reqs).value, MapAfter(infos, reqs))
  {
    if reqs == [] {
      forall q: seq<bytes> ensures Find(InitialTree(), q).Some? <==> q == [] {
        EmptyDirectory(q);
      }
    } else {
      var last, front := reqs[|reqs| - 1], reqs[..|reqs| - 1];
      RunRefinesMap(infos, front);
      HandleRefinesMap(Run(InitialTree(), infos, front).value, MapAfter(infos, front), infos, last.slot, last.body);
    }
  }

  /** Every creation of a new path among the requests finds the parent in place. */
  predicate ParentsFirst(infos: seq<ServerInfo>, reqs: seq<Request>)
    requires Run(InitialTree(), infos, reqs).Some?
  {
    reqs == [] ||
    (var last, front := reqs[|reqs| - 1], reqs[..|reqs| - 1];
     var t := Run(InitialTree(), infos, front).value;
     && ParentsFirst(infos, front)
     && (last.body.Create? && Lookup(t, PathOf(last.body)).None? ==> ParentExists(t, PathOf(last.body))))
  }

  predicate FoundAs(t: Tree, c: nat, q: seq<bytes>)
    requires Valid(t)
  {
    Find(t, q) == Some(c)
  }

  ghost predicate HasOnePath(t: Tree, c: nat)
    requires Valid(t)
  {
    exists q :: FoundAs(t, c, q) && forall p :: FoundAs(t, c, p) ==> p == q
  }

  lemma UniqueSiblingsOnePath(t: Tree, c: nat)
    requires Valid(t) && UniqueSiblings(t) && c < |t|
    ensures HasOnePath(t, c)
  {
    var q := EveryNodeIsFound(t, c);
    assert FoundAs(t, c, q);
    forall p | FoundAs(t, c, p) ensures p == q {
      OnePathEach(t, p, q);
    }
  }

  /** With parents first, sibling names stay unique, so every node there is is found under exactly one path. */
  lemma {:induction false} ParentsFirstUnique(infos: seq<ServerInfo>, reqs: seq<Request>)
    requires Run(InitialTree(), infos, reqs).Some? && ParentsFirst(infos, reqs)
    ensures var t := Run(InitialTree(), infos, reqs).value;
            && UniqueSiblings(t)
            && forall c: nat :: c < |t| ==> HasOnePath(t, c)
  {
    if reqs != [] {
      var last, front := reqs[|reqs| - 1], reqs[..|reqs| - 1];
      var t := Run(InitialTree(), infos, front).value;
      ParentsFirstUnique(infos, front);
      HandleUnique(t, infos, last.slot, last.body);
      if last.body.Create? && Lookup(t, PathOf(last.body)).None? {
        PlacedAtPath(t, PathOf(last.body));
      }
    }
    var t := Run(InitialTree(), infos, reqs).value;
    forall c: nat | c < |t| ensures HasOnePath(t, c) {
      UniqueSiblingsOnePath(t, c);
    }
  }

  lemma RunMore(t: Tree, infos: seq<ServerInfo>, reqs: seq<Request>, u: Tree, last: Request)
    requires Valid(t) && OwnersKnown(t, |infos|) && Run(t, infos, reqs) == Some(u)
    requires last.slot < |infos| && Demands(u, last.body)
    ensures Run(t, infos, reqs + [last]) == Some(Handle(u, infos, last.slot, last.body).0)
  {
    assert (reqs + [last])[..|reqs|] == reqs;
  }

  /** A new directory with one entry. */
  function OneEntry(name: blob, slot: nat): (t: Tree)
    ensures Valid(t) && RootNamed(t) && OwnersKnown(t, slot + 1)
    ensures |t| == 2 && t[0].kids == [1] && t[1] == Node(name, [], Some(slot))
  {
    AttachValid(InitialTree(), 0, name, Some(slot));
    Attach(InitialTree(), 0, name, Some(slot))
  }

  /** Creating /a/b where /a is unknown puts a node b into the root. */
  lemma LandsInRoot(t: Tree, infos: seq<ServerInfo>, user: blob)
    requires Valid(t) && OwnersKnown(t, |infos|) && infos != [] && Kid(t, 0, [97]).None?
    ensures var b := Dcp.Create(FileInfo(0, [SLASH, 97, SLASH, 98], user, 0, 0, 0));
            && Demands(t, b)
            && Handle(t, infos, 0, b).0 == Attach(t, 0, [98], Some(0))
  {
    var path: blob := [SLASH, 97, SLASH, 98];
    TwoLevelPath();
    CStringOfText(path);
    assert Tokens(path)[0] == [97];
    assert Walk(t, 0, Tokens(path)).None? && Deepest(t, 0, Tokens(path)) == 0;
  }

  /** A concrete case: creating /a/b twice in a new directory is accepted both times, as the path is still unknown, and
      leaves two entries of the name b in the root. */
  lemma TwiceIsTwoEntries(infos: seq<ServerInfo>, user: blob)
    requires infos != []
    ensures var create := Request(0, Dcp.Create(FileInfo(0, [SLASH, 97, SLASH, 98], user, 0, 0, 0)));
            var t := Run(InitialTree(), infos, [create, create]);
            && t.Some? && !UniqueSiblings(t.value)
            && t.value[0].kids == [1, 2] && t.value[1].name == t.value[2].name == [98]
  {
    hide Run, Handle, Demands, Attach, UniqueSiblings;
    var create := Request(0, Dcp.Create(FileInfo(0, [SLASH, 97, SLASH, 98], user, 0, 0, 0)));
    var t, u := InitialTree(), OneEntry([98], 0);
    LandsInRoot(t, infos, user);
    LandsInRoot(u, infos, user);
    NoRequests(t, infos);
    RunMore(t, infos, [], t, create);
    assert [] + [create] == [create];
    RunMore(t, infos, [create], u, create);
    assert [create] + [create] == [create, create];
    TwoEntries();
  }

  lemma TwoEntries()
    ensures var t := Attach(OneEntry([98], 0), 0, [98], Some(0));
            && KidsInRange(t) && !UniqueSiblings(t)
            && t[0].kids == [1, 2] && t[1].name == t[2].name == [98]
  {
    var t := Attach(OneEntry([98], 0), 0, [98], Some(0));
    AttachRange(OneEntry([98], 0), 0, [98], Some(0));
    assert t[0].kids == [1, 2] && t[t[0].kids[0]].name == t[t[0].kids[1]].name;
  }

  lemma NoRequests(t: Tree, infos: seq<ServerInfo>)
    requires Valid(t) && OwnersKnown(t, |infos|)
    ensures Run(t, infos, []) == Some(t)
  {
  }

  /** The server of the last request whose target was q. */
  function LastWriter(t: Tree, infos: seq<ServerInfo>, reqs: seq<Request>, q: seq<bytes>): Option<nat>
    requires Valid(t) && OwnersKnown(t, |infos|) && Run(t, infos, reqs).Some?
  {
    if reqs == [] then None else
      var last, front := reqs[|reqs| - 1], reqs[..|reqs| - 1];
      if Target(Run(t, infos, front).value, last.body) == Some(q) then Some(last.slot)
      else LastWriter(t, infos, front, q)
  }

  /** After any interleaving of requests on a new directory, the owner of every path is its last writer. */
  lemma {:induction false} OwnerIsLastWriter(infos: seq<ServerInfo>, reqs: seq<Request>, q: seq<bytes>)
    requires Run(InitialTree(), infos, reqs).Some?
    ensures OwnerAt(Run(InitialTree(), infos, reqs).value, q) == LastWriter(InitialTree(), infos, reqs, q)
  {
    if reqs != [] {
      var last, front := reqs[|reqs| - 1], reqs[..|reqs| - 1];
      OwnerIsLastWriter(infos, front, q);
      HandleOwner(Run(InitialTree(), infos, front).value, infos, last.slot, last.body, q);
    } else {
      assert Find(InitialTree(), q).Some? ==> q == [];
    }
  }

  /** After any interleaving of requests on a new directory, a path resolves exactly if it was the target of one. */
  lemma {:induction false} KnownIffWritten(infos: seq<ServerInfo>, reqs: seq<Request>, q: seq<bytes>)
    requires Run(InitialTree(), infos, reqs).Some?
    ensures Find(Run(InitialTree(), infos, reqs).value, q).Some? <==>
              q == [] || LastWriter(InitialTree(), infos, reqs, q).Some?
  {
    hide Target, Handle, Demands;
    if reqs == [] {
      EmptyDirectory(q);
    } else {
      var last, front := reqs[|reqs| - 1], reqs[..|reqs| - 1];
      KnownIffWritten(infos, front, q);
      HandleFind(Run(InitialTree(), infos, front).value, infos, last.slot, last.body, q);
    }
  }

  lemma ReplicaAnswer(t: Tree, infos: seq<ServerInfo>, slot: nat, path: blob)
    requires Valid(t) && OwnersKnown(t, |infos|) && slot < |infos| && 0 !in path
    ensures var w := OwnerAt(t, Tokens(path));
            && (w.Some? ==> w.value < |infos|)
            && Handle(t, infos, slot, Dcp.GetReplicas(path)) ==
                 (t, Some(if w.Some? then Dcp.ReplicaStatus([infos[w.value].address]) else Refusal(ERR_FILENOTFOUND)))
  {
    CStringOfText(path);
  }

  /** A replica request is answered with the address of the path's last writer, and refused if there is none. */
  lemma ReplicaIsLastWriter(t: Tree, infos: seq<ServerInfo>, reqs: seq<Request>, slot: nat, path: blob)
    requires slot < |infos| && Run(InitialTree(), infos, reqs) == Some(t) && 0 !in path
    ensures var w := LastWriter(InitialTree(), infos, reqs, Tokens(path));
            && (w.Some? ==> w.value < |infos|)
            && Handle(t, infos, slot, Dcp.GetReplicas(path)) ==
                 (t, Some(if w.Some? then Dcp.ReplicaStatus([infos[w.value].address]) else Refusal(ERR_FILENOTFOUND)))
  {
    OwnerIsLastWriter(infos, reqs, Tokens(path));
    ReplicaAnswer(t, infos, slot, path);
  }

  /** When a creation succeeds under an existing parent, or an update succeeds, the target is the path asked for,
      and the reply is a file list; a request without effect is refused or changes nothing. */
  lemma TargetOfSuccess(t: Tree, infos: seq<ServerInfo>, slot: nat, b: Dcp.Body)
    requires Valid(t) && OwnersKnown(t, |infos|) && slot < |infos| && Demands(t, b)
    requires b.Create? || b.Update?
    requires b.Create? && Lookup(t, PathOf(b)).None? ==> ParentExists(t, PathOf(b))
    ensures var reply := Handle(t, infos, slot, b).1;
            && reply.Some?
            && Target(t, b) == if reply.value.FileList? then Some(Tokens(PathOf(b))) else None
  {
    if b.Create? && Lookup(t, PathOf(b)).None? {
      PlacedAtPath(t, PathOf(b));
    }
  }
}
