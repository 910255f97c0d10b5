/** The directory server as a heap structure (src/fsdird.c): nodes linked by first-child and next-sibling
    pointers, walked and extended in place. Every operation is proved against module DirServer. */
module Directory {
  import opened Wrappers
  import opened Bytes
  import opened Messages
  import opened Codec
  import opened Sections
  import opened Paths
  import opened DirTree
  import opened DirServer
  import opened Wire
  import Dcp

  class TreeNode {
    var name: blob
    var children: TreeNode?
    var next: TreeNode?
    var fileserv: Option<nat>

    constructor (name: blob)
      ensures this.name == name && children == null && next == null && fileserv == None
    {
      this.name := name;
      children, next := null, null;
      fileserv := None;
    }
  }

  lemma {:induction false} FirstMatch(t: Tree, kids: seq<nat>, name: bytes, k: nat)
    requires forall j :: 0 <= j < |kids| ==> kids[j] < |t|
    requires k < |kids| && t[kids[k]].name == name && forall j :: 0 <= j < k ==> t[kids[j]].name != name
    ensures FindKid(t, kids, name) == Some(kids[k])
  {
    if k > 0 {
      FirstMatch(t, kids[1..], name, k - 1);
    }
  }

  lemma AttachThenOwn(t: Tree, p: nat, name: blob, slot: nat)
    requires p < |t|
    ensures SetOwner(Attach(t, p, name, None), |t|, slot) == Attach(t, p, name, Some(slot))
  {
  }

  /** The k-th node of a child list, null behind its end. */
  ghost function At(arena: seq<TreeNode>, kids: seq<nat>, k: nat): TreeNode?
    requires forall j :: 0 <= j < |kids| ==> kids[j] < |arena|
  {
    if k < |kids| then arena[kids[k]] else null
  }

  /** The sibling pointer of the k-th child of node i goes to the child behind it. */
  ghost predicate NextFits(t: Tree, arena: seq<TreeNode>, nexts: seq<TreeNode?>, i: nat, k: nat)
    requires KidsInRange(t) && |arena| == |t| && |nexts| == |t| && i < |t| && k < |t[i].kids|
  {
    nexts[t[i].kids[k]] == At(arena, t[i].kids, k + 1)
  }

  /** The pointers, read off as first-child and next-sibling lists, spell the tree. */
  ghost predicate Spells(t: Tree, arena: seq<TreeNode>, firsts: seq<TreeNode?>, nexts: seq<TreeNode?>)
    requires KidsInRange(t)
  {
    && |arena| == |t| && |firsts| == |t| && |nexts| == |t|
    && (forall i :: 0 <= i < |t| ==> firsts[i] == At(arena, t[i].kids, 0))
    && (forall i, k :: 0 <= i < |t| && 0 <= k < |t[i].kids| ==> NextFits(t, arena, nexts, i, k))
  }

  /** Hanging c behind the last child of pi, or as its first child, spells the tree with a node attached. */
  lemma SpellsAfterAttach(t: Tree, arena: seq<TreeNode>, firsts: seq<TreeNode?>, nexts: seq<TreeNode?>, pi: nat,
                          c: TreeNode, name: blob, firsts': seq<TreeNode?>, nexts': seq<TreeNode?>)
    requires KidsInRange(t) && OneLinkEach(t) && Spells(t, arena, firsts, nexts) && pi < |t|
    requires firsts' == (if t[pi].kids == [] then firsts[pi := c] else firsts) + [null]
    requires nexts' == (if t[pi].kids == [] then nexts else nexts[t[pi].kids[|t[pi].kids| - 1] := c]) + [null]
    ensures KidsInRange(Attach(t, pi, name, None))
    ensures Spells(Attach(t, pi, name, None), arena + [c], firsts', nexts')
  {
    AttachRange(t, pi, name, None);
    var r := Attach(t, pi, name, None);
    var kids := t[pi].kids;
    forall i, k | 0 <= i < |r| && 0 <= k < |r[i].kids| ensures NextFits(r, arena + [c], nexts', i, k) {
      if i == pi && k == |kids| {
        assert r[i].kids[k] == |t|;
      } else {
        var m := t[i].kids[k];
        assert r[i].kids[k] == m < |t|;
        assert NextFits(t, arena, nexts, i, k);
        if kids != [] && m == kids[|kids| - 1] {
          assert i == pi && k == |kids| - 1;
        } else {
          assert nexts'[m] == nexts[m];
        }
      }
    }
  }

  class Directory {
    var dirroot: TreeNode

    // The node objects in the order they were made, their pointers, and the tree these spell.
    ghost var arena: seq<TreeNode>
    ghost var firsts: seq<TreeNode?>
    ghost var nexts: seq<TreeNode?>
    ghost var tree: Tree

    ghost predicate Distinct()
      reads this
    {
      forall i, j :: 0 <= i < j < |arena| ==> arena[i] != arena[j]
    }

    ghost predicate Linked()
      reads this, arena
    {
      && DataMatch() && PointersAre(firsts, nexts) && Distinct() && Valid(tree)
      && arena[0] == dirroot
      && Spells(tree, arena, firsts, nexts)
    }

    /** dir_init. */
    constructor ()
      ensures Linked() && tree == InitialTree() && fresh(arena[0])
    {
      var root := new TreeNode([SLASH]);
      dirroot := root;
      arena, firsts, nexts := [root], [null], [null];
      tree := InitialTree();
    }

    /** The scan over the siblings: stops at the first one of that name. */
    method FindChild(p: TreeNode, level: bytes, ghost pi: nat) returns (n: TreeNode?)
      requires Linked() && pi < |arena| && p == arena[pi]
      ensures n == match Kid(tree, pi, level)
                   case None => null
                   case Some(m) => arena[m]
    {
      ghost var kids := tree[pi].kids;
      ghost var k := 0;
      n := p.children;
      while n != null
        invariant 0 <= k <= |kids| && n == At(arena, kids, k)
        invariant forall j :: 0 <= j < k ==> tree[kids[j]].name != level
        decreases |kids| - k
      {
        if n.name == level {
          FirstMatch(tree, kids, level, k);
          return;
        }
        assert NextFits(tree, arena, nexts, pi, k);
        n := n.next;
        k := k + 1;
      }
    }

    /** Follows the components that strtok delivers; exact lookup wants all of them matched. */
    method DirFindNode(path: bytes, exact: bool) returns (r: TreeNode?)
      requires Linked()
      ensures exact ==> r == match Lookup(tree, path)
                             case None => null
                             case Some(i) => arena[i]
      ensures !exact ==> r == arena[Deepest(tree, 0, Tokens(path))]
    {
      var token := Strtok(path);
      if token.None? {
        return dirroot;
      }
      var p: TreeNode, n: TreeNode? := dirroot, null;
      ghost var pi: nat := 0;
      ghost var left := Tokens(path);
      while token.Some?
        invariant pi < |arena| && p == arena[pi]
        invariant token.Some? ==> left == [token.value.0] + Tokens(token.value.1)
        invariant token.None? ==> left == [] && n == p
        invariant Lookup(tree, path) == Walk(tree, pi, left)
        invariant Deepest(tree, 0, Tokens(path)) == Deepest(tree, pi, left)
        decreases if token.Some? then |token.value.1| + 1 else 0
      {
        var level := token.value.0;
        assert left[0] == level && left[1..] == Tokens(token.value.1);
        n := FindChild(p, level, pi);
        if n == null {
          break;
        }
        p := n;
        pi := Kid(tree, pi, level).value;
        left := left[1..];
        token := Strtok(token.value.1);
      }
      r := if exact then n else p;
    }

    /** Follows the sibling pointers to the last child. */
    method LastChild(p: TreeNode, ghost pi: nat) returns (i: TreeNode)
      requires Linked() && pi < |arena| && p == arena[pi] && p.children != null
      ensures tree[pi].kids != [] && i == arena[tree[pi].kids[|tree[pi].kids| - 1]]
    {
      ghost var kids := tree[pi].kids;
      i := p.children;
      ghost var k := 0;
      while i.next != null
        invariant 0 <= k < |kids| && i == arena[kids[k]]
        decreases |kids| - k
      {
        assert NextFits(tree, arena, nexts, pi, k);
        i := i.next;
        k := k + 1;
      }
      assert NextFits(tree, arena, nexts, pi, k);
    }

    /** The pointers of the nodes so far, when one of them may just have been set. */
    ghost predicate PointersAre(f: seq<TreeNode?>, n: seq<TreeNode?>)
      reads this, arena
    {
      && |arena| == |f| == |n|
      && forall i :: 0 <= i < |arena| ==> arena[i].children == f[i] && arena[i].next == n[i]
    }

    ghost predicate DataMatch()
      reads this, arena
    {
      && |arena| == |tree|
      && forall i :: 0 <= i < |arena| ==> arena[i].name == tree[i].name && arena[i].fileserv == tree[i].owner
    }

    /** Takes the new node into the ghost view. */
    ghost method Record(c: TreeNode, pi: nat, f: seq<TreeNode?>, n: seq<TreeNode?>)
      requires DataMatch() && PointersAre(f, n) && Distinct() && Valid(tree) && arena[0] == dirroot && pi < |tree|
      requires c !in arena && c.next == null && c.children == null && c.fileserv == None
      requires Spells(Attach(tree, pi, c.name, None), arena + [c], f + [null], n + [null])
      modifies this`arena, this`firsts, this`nexts, this`tree
      ensures arena == old(arena) + [c] && tree == Attach(old(tree), pi, c.name, None)
      ensures Linked()
    {
      AttachValid(tree, pi, c.name, None);
      arena, firsts, nexts := arena + [c], f + [null], n + [null];
      tree := Attach(tree, pi, c.name, None);
    }

    method HangFirst(p: TreeNode, c: TreeNode, ghost pi: nat)
      requires Linked() && pi < |arena| && p == arena[pi] && p.children == null
      requires c !in arena && c.next == null && c.children == null && c.fileserv == None
      modifies this`arena, this`firsts, this`nexts, this`tree, p`children
      ensures arena == old(arena) + [c] && tree == Attach(old(tree), pi, c.name, None)
      ensures Linked()
    {
      assert tree[pi].kids == [];
      AttachRange(tree, pi, c.name, None);
      SpellsAfterAttach(tree, arena, firsts, nexts, pi, c, c.name, firsts[pi := c] + [null], nexts + [null]);
      p.children := c;
      Record(c, pi, firsts[pi := c], nexts);
    }

    method HangLast(i: TreeNode, c: TreeNode, ghost pi: nat, ghost last: nat)
      requires Linked() && pi < |arena| && last < |arena| && i == arena[last]
      requires tree[pi].kids != [] && last == tree[pi].kids[|tree[pi].kids| - 1]
      requires c !in arena && c.next == null && c.children == null && c.fileserv == None
      modifies this`arena, this`firsts, this`nexts, this`tree, i`next
      ensures arena == old(arena) + [c] && tree == Attach(old(tree), pi, c.name, None)
      ensures Linked()
    {
      AttachRange(tree, pi, c.name, None);
      SpellsAfterAttach(tree, arena, firsts, nexts, pi, c, c.name, firsts + [null], nexts[last := c] + [null]);
      i.next := c;
      Record(c, pi, firsts, nexts[last := c]);
    }

    /** Hangs the new node behind the last child, or as the first one. */
    method AddChild(p: TreeNode, c: TreeNode, ghost pi: nat)
      requires Linked() && pi < |arena| && p == arena[pi]
      requires c !in arena && c.next == null && c.children == null && c.fileserv == None
      modifies this`arena, this`firsts, this`nexts, this`tree, arena
      ensures arena == old(arena) + [c] && tree == Attach(old(tree), pi, c.name, None)
      ensures Linked() && c.name == old(c.name)
    {
      if p.children == null {
        HangFirst(p, c, pi);
      } else {
        var i := LastChild(p, pi);
        HangLast(i, c, pi, tree[pi].kids[|tree[pi].kids| - 1]);
      }
    }

    /** Makes a node for the path and hangs it under the deepest existing ancestor. */
    method AddNode(path: blob) returns (n: TreeNode)
      requires Linked() && SLASH in path
      modifies this`arena, this`firsts, this`nexts, this`tree, arena
      ensures Linked() && fresh(n) && arena == old(arena) + [n]
      ensures tree == DirServer.AddNode(old(tree), path, None)
    {
      n := new TreeNode(AfterLastSlash(path));
      var p := DirFindNode(path, false);
      AddChild(p, n, Deepest(tree, 0, Tokens(path)));
    }

    method SetServer(n: TreeNode, slot: nat, ghost i: nat)
      requires Linked() && i < |arena| && n == arena[i]
      modifies this`tree, n`fileserv
      ensures Linked() && tree == SetOwner(old(tree), i, slot)
    {
      SetOwnerValid(tree, i, slot);
      n.fileserv := Some(slot);
      tree := SetOwner(tree, i, slot);
      SameLinks(old(tree), tree, arena, firsts, nexts);
    }

    method AddOwned(path: blob, slot: nat) returns (n: TreeNode)
      requires Linked() && SLASH in path
      modifies this`arena, this`firsts, this`nexts, this`tree, arena
      ensures Linked() && fresh(n) && arena == old(arena) + [n] && n.name == AfterLastSlash(path)
      ensures tree == DirServer.AddNode(old(tree), path, Some(slot))
    {
      n := AddNode(path);
      SetServer(n, slot, |arena| - 1);
      AttachThenOwn(old(tree), Deepest(old(tree), 0, Tokens(path)), AfterLastSlash(path), slot);
    }

    // ---- The request handlers: each returns the reply message, or nothing when the request breaks what
    //      the handler takes for granted --------------------------------------------------------------

    /** create_file. */
    method CreateFile(infos: seq<ServerInfo>, slot: nat, tid: uint64, fi: FileInfo) returns (reply: Fsmsg?)
      requires Linked() && OwnersKnown(tree, |infos|) && slot < |infos|
      modifies this`arena, this`firsts, this`nexts, this`tree, arena
      ensures Linked() && Grown(old(arena), arena)
      ensures reply != null ==> fresh(reply) && fresh(reply.sections)
      ensures Answered(old(tree), tree, infos, slot, tid, Dcp.Create(fi), reply)
    {
      hide Dcp.Message, Seal, Spells, Tokens, NodeInfo, DirServer.AddNode;
      var path := CString(fi.path);
      var n := DirFindNode(path, true);
      if n != null {
        reply := ErrorReply(tid, infos[slot].id, ERR_EXISTS, Ascii("file already exists"));
        return;
      }
      if SLASH !in path {
        return null;
      }
      reply := CreateNode(infos, slot, tid, path);
    }

    /** The new node and the reply about it. */
    method CreateNode(infos: seq<ServerInfo>, slot: nat, tid: uint64, path: blob) returns (reply: Fsmsg)
      requires Linked() && slot < |infos| && SLASH in path
      modifies this`arena, this`firsts, this`nexts, this`tree, arena
      ensures Linked() && Grown(old(arena), arena) && tree == DirServer.AddNode(old(tree), path, Some(slot))
      ensures fresh(reply) && fresh(reply.sections) && reply.Valid()
      ensures reply.View() == Seal(Dcp.Message(tid, infos[slot].id, DIRECTORY_FSID,
                                               Dcp.FileList([NodeInfo(AfterLastSlash(path))])))
    {
      var c := AddOwned(path, slot);
      reply := FileInfoReply(tid, infos[slot].id, NodeInfo(c.name));
    }

    /** update_file. */
    method UpdateFile(infos: seq<ServerInfo>, slot: nat, tid: uint64, fi: FileInfo) returns (reply: Fsmsg?)
      requires Linked() && OwnersKnown(tree, |infos|) && slot < |infos|
      modifies this`tree, arena
      ensures Linked() && arena == old(arena)
      ensures reply != null ==> fresh(reply) && fresh(reply.sections)
      ensures Answered(old(tree), tree, infos, slot, tid, Dcp.Update(fi), reply)
    {
      var path := CString(fi.path);
      var n := DirFindNode(path, true);
      if n == null {
        reply := ErrorReply(tid, infos[slot].id, ERR_FILENOTFOUND, Ascii("file doesn't exist"));
        return;
      }
      SetServer(n, slot, Lookup(tree, path).value);
      reply := FileInfoReply(tid, infos[slot].id, NodeInfo(n.name));
    }

    /** replica_status. */
    method ReplicaStatus(infos: seq<ServerInfo>, slot: nat, tid: uint64, name: blob) returns (reply: Fsmsg?)
      requires Linked() && OwnersKnown(tree, |infos|) && slot < |infos|
      ensures reply != null ==> fresh(reply) && fresh(reply.sections)
      ensures Answered(tree, tree, infos, slot, tid, Dcp.GetReplicas(name), reply)
    {
      var n := DirFindNode(CString(name), true);
      if n == null || n.fileserv.None? {
        reply := ErrorReply(tid, infos[slot].id, ERR_FILENOTFOUND, Ascii("file doesn't exist"));
        return;
      }
      reply := HostReply(tid, infos[slot].id, infos[n.fileserv.value].address);
    }

    /** The loop of read_dir: one file info for each sibling, with the count in the first section kept up to date
        in place; it gives up when the count would overflow. */
    method ListChildren(d: TreeNode, msg: Fsmsg, ghost di: nat) returns (ok: bool)
      requires Linked() && di < |arena| && d == arena[di]
      requires msg.Valid() && msg.Listed() == [Integer(0)]
      modifies msg`sections, msg.sections
      ensures ok <==> |tree[di].kids| < 0x8000_0000
      ensures msg.Valid() && (fresh(msg.sections) || msg.sections == old(msg.sections))
      ensures ok ==> msg.Listed() == [Integer(|tree[di].kids|)] + FileSections(ChildInfos(tree, di))
    {
      ghost var infosOf, kids := ChildInfos(tree, di), tree[di].kids;
      var n := d.children;
      var count := 0;
      while n != null
        invariant msg.Valid() && (fresh(msg.sections) || msg.sections == old(msg.sections))
        invariant 0 <= count <= |kids| && n == At(arena, kids, count) && count < 0x8000_0000
        invariant msg.Listed() == [Integer(count)] + FileSections(infosOf[..count])
        decreases |kids| - count
      {
        if count == 0x7fff_ffff {
          return false;
        }
        CountAndAdd(msg, count, NodeInfo(n.name), infosOf[..count]);
        assert NextFits(tree, arena, nexts, di, count);
        OneMoreChild(tree, di, count);
        n := n.next;
        count := count + 1;
      }
      assert infosOf[..count] == infosOf;
      ok := true;
    }

    /** read_dir. */
    method ReadDir(infos: seq<ServerInfo>, slot: nat, tid: uint64, recurse: int32, name: blob) returns (reply: Fsmsg?)
      requires Linked() && OwnersKnown(tree, |infos|) && slot < |infos|
      ensures reply != null ==> fresh(reply) && fresh(reply.sections)
      ensures Answered(tree, tree, infos, slot, tid, Dcp.Read(recurse, name), reply)
    {
      var d := DirFindNode(CString(name), true);
      if d == null {
        return null;
      }
      reply := ChildrenReply(d, tid, infos[slot].id, Lookup(tree, CString(name)).value);
    }

    /** The message of read_dir: a count of 0, the entries, the end marker. */
    method ChildrenReply(d: TreeNode, tid: uint64, id: uint64, ghost di: nat) returns (reply: Fsmsg?)
      requires Linked() && di < |arena| && d == arena[di]
      ensures reply == null <==> |tree[di].kids| >= 0x8000_0000
      ensures reply != null ==>
                && fresh(reply) && fresh(reply.sections) && reply.Valid()
                && reply.View() == Seal(Dcp.Message(tid, id, DIRECTORY_FSID, Dcp.FileList(ChildInfos(tree, di))))
    {
      var msg := NewReply(tid, id, DCP_FILEINFO);
      msg.AddSection(Integer(0));
      var ok := ListChildren(d, msg, di);
      if !ok {
        return null;
      }
      msg.AddSection(NoNext);
      reply := msg;
    }

    /** The dispatch of serve_fileserver for one accepted message. */
    method Dispatch(infos: seq<ServerInfo>, slot: nat, m: Msg) returns (ok: bool, reply: Fsmsg?)
      requires Linked() && OwnersKnown(tree, |infos|) && slot < |infos| && Dcp.Accepts(m)
      modifies this`arena, this`firsts, this`nexts, this`tree, arena
      ensures Linked() && Grown(old(arena), arena)
      ensures reply != null ==> fresh(reply) && fresh(reply.sections) && reply.Valid() && Headed(DCP, reply.View())
      ensures ServeMessage(old(tree), infos, slot, m) ==
                if ok then Some((tree, if reply == null then [] else Encode(reply.View()))) else None
      ensures !ok ==> tree == old(tree)
    {
      hide Handle, Demands;
      reply := null;
      match m.kind {
        case 5 =>
          var b := Dcp.BodyOf(m);
          reply := ReadDir(infos, slot, m.tid, b.recurse, b.path);
        case 4 =>
          var b := Dcp.BodyOf(m);
          reply := CreateFile(infos, slot, m.tid, b.info);
        case 6 =>
          var b := Dcp.BodyOf(m);
          reply := UpdateFile(infos, slot, m.tid, b.info);
        case 12 =>
          var b := Dcp.BodyOf(m);
          reply := ReplicaStatus(infos, slot, m.tid, b.path);
        case _ =>
          return true, null;
      }
      ok := reply != null;
    }

    /** serve_fileserver: reads, validates and dispatches messages until one cannot be read (or a handler is asked
        for what it takes for granted), and sends the replies in order; waits tells that there are no more bytes. */
    method ServeFileserver(infos: seq<ServerInfo>, slot: nat, sock: Socket) returns (out: bytes, waits: bool)
      requires Linked() && OwnersKnown(tree, |infos|) && slot < |infos|
      modifies this`arena, this`firsts, this`nexts, this`tree, arena, sock
      ensures Linked() && Grown(old(arena), arena) && OwnersKnown(tree, |infos|)
      ensures (tree, out, waits) == ServeStream(old(tree), infos, slot, old(sock.data))
    {
      hide ServeStream;
      out, waits := [], false;
      ghost var goal := ServeStream(tree, infos, slot, sock.data);
      assert [] + goal.1 == goal.1;
      var more := true;
      while more
        invariant Linked() && Grown(old(arena), arena) && OwnersKnown(tree, |infos|)
        invariant StillToServe(goal, more, out, waits, infos, slot, sock.data)
        decreases more, |sock.data|
      {
        var answer;
        more, answer, waits := ServeNext(infos, slot, sock, out, goal);
        out := out + answer;
      }
    }

    /** The outcome of the whole stream from what is sent so far and what is left to read. */
    ghost predicate StillToServe(goal: (Tree, bytes, bool), more: bool, out: bytes, waits: bool, infos: seq<ServerInfo>,
                                 slot: nat, bs: bytes)
      requires Valid(tree) && OwnersKnown(tree, |infos|) && slot < |infos|
      reads this
    {
      goal == if more then WithOutput(out, ServeStream(tree, infos, slot, bs)) else (tree, out, waits)
    }

    /** One turn of the service loop. */
    method ServeNext(infos: seq<ServerInfo>, slot: nat, sock: Socket, ghost out: bytes, ghost goal: (Tree, bytes, bool))
      returns (more: bool, answer: bytes, waits: bool)
      requires Linked() && OwnersKnown(tree, |infos|) && slot < |infos|
      requires StillToServe(goal, true, out, false, infos, slot, sock.data)
      modifies this`arena, this`firsts, this`nexts, this`tree, arena, sock
      ensures Linked() && Grown(old(arena), arena) && OwnersKnown(tree, |infos|)
      ensures more ==> |sock.data| < old(|sock.data|)
      ensures StillToServe(goal, more, out + answer, waits, infos, slot, sock.data)
    {
      hide ServeStream, ServeMessage, Decode, WithOutput;
      ghost var bs, t := sock.data, tree;
      assert out + [] == out;
      waits := false;
      var msg := FsmsgFromSocket(sock, DCP);
      if msg == null {
        ServeStreamEnds(t, infos, slot, bs, out);
        return false, [], sock.starved;
      }
      DecodeShortens(bs);
      more, answer := ServeOne(infos, slot, msg.View());
      if more {
        ServeStreamStep(t, infos, slot, bs, out, tree, answer);
      } else {
        ServeStreamEnds(t, infos, slot, bs, out);
      }
    }

    /** One message: validation, dispatch, and the printed answer. */
    method ServeOne(infos: seq<ServerInfo>, slot: nat, m: Msg) returns (ok: bool, answer: bytes)
      requires Linked() && OwnersKnown(tree, |infos|) && slot < |infos|
      modifies this`arena, this`firsts, this`nexts, this`tree, arena
      ensures Linked() && Grown(old(arena), arena)
      ensures ServeMessage(old(tree), infos, slot, m) == if ok then Some((tree, answer)) else None
      ensures !ok ==> tree == old(tree) && answer == []
    {
      var ret := Dcp.ValidateSections(m);
      var reply: Fsmsg?;
      if ret < 0 {
        ok := true;
        reply := ErrorReply(m.tid, infos[slot].id, ERR_MSG, Ascii("section validation error"));
      } else {
        ok, reply := Dispatch(infos, slot, m);
      }
      answer := [];
      if ok && reply != null {
        var buffer, len := FsmsgToBuffer(reply, DCP);
        answer := buffer.store[..len];
      }
    }
  }

  /** Nodes are only added, and the added ones are new. */
  twostate predicate Grown(a: seq<TreeNode>, new b: seq<TreeNode>) {
    a <= b && forall i :: |a| <= i < |b| ==> fresh(b[i])
  }

  /** The reply and the new tree are those of the handler function; there is none exactly when the request breaks
      what the handler takes for granted, and then nothing has changed. */
  ghost predicate Answered(t: Tree, r: Tree, infos: seq<ServerInfo>, slot: nat, tid: uint64, b: Dcp.Body, reply: Fsmsg?)
    requires Valid(t) && OwnersKnown(t, |infos|) && slot < |infos|
    reads reply, if reply == null then {} else {reply.sections}
  {
    if reply == null then !Demands(t, b) && r == t
    else
      && Demands(t, b) && r == Handle(t, infos, slot, b).0
      && Handle(t, infos, slot, b).1.Some?
      && reply.Valid()
      && reply.View() == Seal(Dcp.Message(tid, infos[slot].id, DIRECTORY_FSID, Handle(t, infos, slot, b).1.value))
  }

  /** dcp_create_msg with the directory's file system id. */
  method NewReply(tid: uint64, id: uint64, kind: uint16) returns (msg: Fsmsg)
    ensures fresh(msg) && msg.Valid() && fresh(msg.sections)
    ensures msg.View() == Msg(tid, [id, DIRECTORY_FSID], kind, [])
  {
    msg := new Fsmsg.Create(DCP);
    msg.tid, msg.ids, msg.kind := tid, [id, DIRECTORY_FSID], kind;
  }

  /** dcp_send_error. */
  method ErrorReply(tid: uint64, id: uint64, code: int32, text: blob) returns (msg: Fsmsg)
    ensures fresh(msg) && msg.Valid() && fresh(msg.sections)
    ensures msg.View() == Seal(Dcp.Message(tid, id, DIRECTORY_FSID, Dcp.Failure(code, text)))
  {
    msg := NewReply(tid, id, DCP_ERROR);
    msg.AddSection(Integer(code));
    msg.AddSection(Text(text));
    msg.AddSection(NoNext);
  }

  lemma OneMoreChild(t: Tree, di: nat, count: nat)
    requires KidsInRange(t) && di < |t| && count < |t[di].kids|
    ensures ChildInfos(t, di)[..count + 1] == ChildInfos(t, di)[..count] + [NodeInfo(t[t[di].kids[count]].name)]
  {
  }

  /** Raises the count section and appends one more file info. */
  method CountAndAdd(msg: Fsmsg, count: nat, fi: FileInfo, ghost files: seq<FileInfo>)
    requires msg.Valid() && count + 1 < 0x8000_0000
    requires |files| == count && msg.Listed() == [Integer(count)] + FileSections(files)
    modifies msg`sections, msg.sections
    ensures msg.Valid() && fresh(msg.sections)
    ensures msg.Listed() == [Integer(count + 1)] + FileSections(files + [fi])
  {
    msg.SetInteger(0, count + 1);
    msg.AddSection(File(fi));
    assert FileSections(files + [fi]) == FileSections(files) + [File(fi)];
    Associate([Integer(count + 1)], FileSections(files), [File(fi)]);
  }

  /** dcp_send_fileinfo. */
  method FileInfoReply(tid: uint64, id: uint64, fi: FileInfo) returns (msg: Fsmsg)
    ensures fresh(msg) && msg.Valid() && fresh(msg.sections)
    ensures msg.View() == Seal(Dcp.Message(tid, id, DIRECTORY_FSID, Dcp.FileList([fi])))
  {
    msg := NewReply(tid, id, DCP_FILEINFO);
    msg.AddSection(Integer(1));
    msg.AddSection(File(fi));
    msg.AddSection(NoNext);
  }

  /** dcp_send_replica_list. */
  method HostReply(tid: uint64, id: uint64, address: blob) returns (msg: Fsmsg)
    ensures fresh(msg) && msg.Valid() && fresh(msg.sections)
    ensures msg.View() == Seal(Dcp.Message(tid, id, DIRECTORY_FSID, Dcp.ReplicaStatus([address])))
  {
    msg := NewReply(tid, id, DCP_REPLICA_STATUS);
    msg.AddSection(Integer(1));
    msg.AddSection(Text(address));
    msg.AddSection(NoNext);
  }

  lemma DecodeShortens(bs: bytes)
    ensures Decode(DCP, bs).Got? ==> |Decode(DCP, bs).value.1| < |bs|
  {
  }

  /** The stream is served no further. */
  lemma ServeStreamEnds(t: Tree, infos: seq<ServerInfo>, slot: nat, bs: bytes, out: bytes)
    requires Valid(t) && OwnersKnown(t, |infos|) && slot < |infos|
    requires !Decode(DCP, bs).Got? || ServeMessage(t, infos, slot, Decode(DCP, bs).value.0).None?
    ensures WithOutput(out, ServeStream(t, infos, slot, bs)) == (t, out, Decode(DCP, bs).Short?)
  {
    assert out + [] == out;
  }

  /** One message is served and the rest follows. */
  lemma ServeStreamStep(t: Tree, infos: seq<ServerInfo>, slot: nat, bs: bytes, out: bytes, u: Tree, answer: bytes)
    requires Valid(t) && OwnersKnown(t, |infos|) && slot < |infos|
    requires Decode(DCP, bs).Got?
    requires ServeMessage(t, infos, slot, Decode(DCP, bs).value.0) == Some((u, answer))
    ensures Valid(u) && OwnersKnown(u, |infos|)
    ensures WithOutput(out, ServeStream(t, infos, slot, bs))
         == WithOutput(out + answer, ServeStream(u, infos, slot, Decode(DCP, bs).value.1))
  {
    ServeMessageKeeps(t, infos, slot, Decode(DCP, bs).value.0);
    Associate(out, answer, ServeStream(u, infos, slot, Decode(DCP, bs).value.1).1);
  }

  ghost function WithOutput(out: bytes, r: (Tree, bytes, bool)): (Tree, bytes, bool) {
    (r.0, out + r.1, r.2)
  }

  lemma SameLinks(t: Tree, r: Tree, arena: seq<TreeNode>, firsts: seq<TreeNode?>, nexts: seq<TreeNode?>)
    requires KidsInRange(t) && KidsInRange(r) && |r| == |t| && forall i :: 0 <= i < |t| ==> r[i].kids == t[i].kids
    requires Spells(t, arena, firsts, nexts)
    ensures Spells(r, arena, firsts, nexts)
  {
    forall i, k | 0 <= i < |r| && 0 <= k < |r[i].kids| ensures NextFits(r, arena, nexts, i, k) {
      assert NextFits(t, arena, nexts, i, k);
    }
  }
}
