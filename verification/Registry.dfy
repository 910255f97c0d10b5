/** The directory's table of file servers (src/fsdird.c): a fixed array of slots, filled from the front, and the
    counter that ids are taken from; and the file server's table of clients (src/fsservd.c). */
module Registry {
  import opened Bytes

  const MAX_FSERVERS := 100

  /** id 0 marks a free slot. */
  datatype Slot = Slot(id: uint64, sd: int)

  const FREE: Slot := Slot(0, 0)

  class Table {
    var fileservers: array<Slot>
    var fsrvcnt: nat
    var lastsid: uint64

    /** Occupied slots form a prefix, counted by fsrvcnt. */
    ghost predicate Valid()
      reads this, fileservers
    {
      && fileservers.Length == MAX_FSERVERS
      && fsrvcnt <= MAX_FSERVERS
      && (forall i :: 0 <= i < fsrvcnt ==> fileservers[i].id != 0)
      && (forall i :: fsrvcnt <= i < MAX_FSERVERS ==> fileservers[i].id == 0)
    }

    ghost function Occupied(): (r: seq<Slot>)
      requires Valid()
      reads this, fileservers
    {
      fileservers[..fsrvcnt]
    }

    constructor ()
      ensures Valid() && fresh(fileservers) && Occupied() == [] && lastsid == 0
    {
      fileservers := new Slot[MAX_FSERVERS](_ => FREE);
      fsrvcnt, lastsid := 0, 0;
    }

    /** nextsid: 64-bit increment. */
    method NextSid() returns (sid: uint64)
      requires Valid()
      modifies this`lastsid
      ensures Valid() && sid == lastsid == (old(lastsid) + 1) % 0x1_0000_0000_0000_0000
    {
      lastsid := (lastsid + 1) % 0x1_0000_0000_0000_0000;
      sid := lastsid;
    }

    /** register_fsrv: the first free slot, or -1. */
    method RegisterFsrv(sd: int, sid: uint64) returns (r: int)
      requires Valid()
      modifies this`fsrvcnt, fileservers
      ensures Valid() && fileservers == old(fileservers)
      ensures if sid == 0 || old(fsrvcnt) == MAX_FSERVERS then r == -1 && Occupied() == old(Occupied())
              else r == old(fsrvcnt) && Occupied() == old(Occupied()) + [Slot(sid, sd)]
    {
      if sid == 0 || fsrvcnt > MAX_FSERVERS {
        return -1;
      }
      for i := 0 to MAX_FSERVERS
        invariant i <= fsrvcnt && Valid() && fsrvcnt == old(fsrvcnt) && fileservers[..] == old(fileservers[..])
      {
        if fileservers[i].id == 0 {
          fileservers[i] := Slot(sid, sd);
          fsrvcnt := fsrvcnt + 1;
          return i;
        }
      }
      r := -1;
    }

    /** The accept loop for a list of connections: an id is drawn before each is accepted, and is used up also when the
        connection is then refused; the next is already drawn when the loop waits. */
    method AcceptAll(sds: seq<int>)
      requires Valid() && lastsid == 0 && Occupied() == []
      requires |sds| + 1 < 0x1_0000_0000_0000_0000
      modifies this`lastsid, this`fsrvcnt, fileservers
      ensures Valid() && lastsid == |sds| + 1 && Occupied() == Assigned(sds)
    {
      var sid := NextSid();
      for k := 0 to |sds|
        invariant Valid() && fileservers == old(fileservers) && lastsid == sid == k + 1
        invariant Occupied() == Assigned(sds[..k])
      {
        var r := RegisterFsrv(sds[k], sid);
        assert sds[..k + 1] == sds[..k] + [sds[k]];
        AssignedSnoc(sds[..k], sds[k]);
        sid := NextSid();
      }
      assert sds[..|sds|] == sds;
    }
  }

  /** The table after the connections, as a function of them: the k-th connection gets id k + 1 and the k-th slot
      as long as there are slots. */
  function Assigned(sds: seq<int>): (r: seq<Slot>)
    requires |sds| < 0x1_0000_0000_0000_0000
    ensures |r| == if |sds| < MAX_FSERVERS then |sds| else MAX_FSERVERS
  {
    seq(if |sds| < MAX_FSERVERS then |sds| else MAX_FSERVERS, k requires 0 <= k < |sds| => Slot(k + 1, sds[k]))
  }

  lemma AssignedSnoc(sds: seq<int>, sd: int)
    requires |sds| + 1 < 0x1_0000_0000_0000_0000
    ensures Assigned(sds + [sd]) ==
            if |sds| < MAX_FSERVERS then Assigned(sds) + [Slot(|sds| + 1, sd)] else Assigned(sds)
  {
  }

  /** Ids are nonzero, increase strictly from slot to slot, and never exceed the counter; a slot once filled keeps
      its id and socket whatever connects later, and a full table takes nobody. */
  lemma AssignedKeeps(sds: seq<int>, more: seq<int>)
    requires |sds| + |more| < 0x1_0000_0000_0000_0000
    ensures var a, b := Assigned(sds), Assigned(sds + more);
            && a <= b
            && (forall k :: 0 <= k < |a| ==> 0 < a[k].id <= |sds| && a[k].sd == sds[k])
            && (forall j, k :: 0 <= j < k < |b| ==> b[j].id < b[k].id)
            && (|a| == MAX_FSERVERS ==> a == b)
  {
    var a, b := Assigned(sds), Assigned(sds + more);
    assert forall k :: 0 <= k < |a| ==> a[k] == Slot(k + 1, sds[k]) && b[k] == a[k];
  }

  // ---- The file server's clients -----------------------------------------------------------------------

  const MAX_CLIENTS := 100

  /** Where the scan for a free slot stops. */
  function FirstFree(s: seq<Slot>): (i: nat)
    ensures i <= |s| && (i < |s| ==> s[i].id == 0)
    ensures forall j :: 0 <= j < i ==> s[j].id != 0
  {
    if s == [] || s[0].id == 0 then 0 else 1 + FirstFree(s[1..])
  }

  lemma {:induction false} FirstFreeIs(s: seq<Slot>, i: nat)
    requires i <= |s| && (i < |s| ==> s[i].id == 0) && forall j :: 0 <= j < i ==> s[j].id != 0
    ensures FirstFree(s) == i
  {
    if i > 0 {
      FirstFreeIs(s[1..], i - 1);
    }
  }

  /** A client that connects; quits tells whether it ends its session properly, which alone frees its slot. */
  datatype Visit = Visit(sd: int, quits: bool)

  /** How many clients have been registered and how many slots are lost to clients that never quit. */
  datatype Tally = Tally(count: nat, lost: nat)

  function Counted(t: Tally, visit: Visit): Tally {
    if t.count > MAX_CLIENTS || t.lost == MAX_CLIENTS then t
    else Tally(t.count + 1, t.lost + if visit.quits then 0 else 1)
  }

  /** One client after the other, as the single-threaded server takes them. */
  function After(visits: seq<Visit>): (t: Tally)
    ensures t.lost <= MAX_CLIENTS && t.count <= MAX_CLIENTS + 1
  {
    if visits == [] then Tally(0, 0) else Counted(After(visits[..|visits| - 1]), visits[|visits| - 1])
  }

  /** The slot that the next client gets. */
  function Pick(t: Tally): int {
    if t.count > MAX_CLIENTS then -1 else t.lost
  }

  class ClientTable {
    var clients: array<Slot>
    var clicnt: nat

    ghost predicate Valid()
      reads this
    {
      clients.Length == MAX_CLIENTS
    }

    /** Only the lost slots are occupied, and they come first. */
    ghost predicate Matches(t: Tally)
      reads this, clients
    {
      && Valid() && clicnt == t.count && t.lost <= MAX_CLIENTS
      && (forall i :: 0 <= i < t.lost ==> clients[i].id != 0)
      && (forall i :: t.lost <= i < MAX_CLIENTS ==> clients[i].id == 0)
    }

    constructor ()
      ensures fresh(clients) && Matches(Tally(0, 0))
    {
      clients := new Slot[MAX_CLIENTS](_ => FREE);
      clicnt := 0;
    }

    /** register_client: the first free slot; when there is none, the index behind the table. */
    method RegisterClient(sd: int, cid: uint64) returns (i: int)
      requires Valid()
      modifies this`clicnt, clients
      ensures clients == old(clients)
      ensures var k := FirstFree(old(clients[..]));
              if cid == 0 || old(clicnt) > MAX_CLIENTS then
                i == -1 && clicnt == old(clicnt) && clients[..] == old(clients[..])
              else if k == MAX_CLIENTS then
                i == MAX_CLIENTS && clicnt == old(clicnt) && clients[..] == old(clients[..])
              else
                i == k && clicnt == old(clicnt) + 1 && clients[..] == old(clients[..])[k := Slot(cid, sd)]
    {
      if cid == 0 || clicnt > MAX_CLIENTS {
        return -1;
      }
      for k := 0 to MAX_CLIENTS
        invariant clients[..] == old(clients[..]) && clicnt == old(clicnt)
        invariant forall j :: 0 <= j < k ==> clients[j].id != 0
      {
        if clients[k].id == 0 {
          FirstFreeIs(clients[..], k);
          clients[k] := Slot(cid, sd);
          clicnt := clicnt + 1;
          return k;
        }
      }
      FirstFreeIs(clients[..], MAX_CLIENTS);
      i := MAX_CLIENTS;
    }

    /** The end of a session: quitting frees the slot. */
    method Leave(i: nat, quits: bool)
      requires Valid() && i < MAX_CLIENTS
      modifies clients
      ensures clients[..] == if quits then old(clients[..])[i := FREE] else old(clients[..])
    {
      if quits {
        clients[i] := FREE;
      }
    }

    /** One client from its connection to the end of its session. What the program does with an index behind the table
        is not part of this model: here nothing. */
    method AcceptClient(visit: Visit, cid: uint64, ghost t: Tally) returns (i: int)
      requires Matches(t) && cid != 0
      modifies this`clicnt, clients
      ensures clients == old(clients) && Matches(Counted(t, visit)) && i == Pick(t)
    {
      FirstFreeIs(clients[..], t.lost);
      i := RegisterClient(visit.sd, cid);
      if 0 <= i < MAX_CLIENTS {
        Leave(i, visit.quits);
      }
    }

    /** The accept loop for a list of clients. */
    method AcceptClients(visits: seq<Visit>, cid: uint64) returns (picked: seq<int>)
      requires Matches(Tally(0, 0)) && cid != 0
      modifies this`clicnt, clients
      ensures |picked| == |visits| && Matches(After(visits))
      ensures forall k :: 0 <= k < |visits| ==> picked[k] == Pick(After(visits[..k]))
    {
      hide Pick, Counted;
      picked := [];
      for k := 0 to |visits|
        invariant clients == old(clients) && |picked| == k && Matches(After(visits[..k]))
        invariant forall j :: 0 <= j < k ==> picked[j] == Pick(After(visits[..j]))
      {
        var i := AcceptClient(visits[k], cid, After(visits[..k]));
        picked := picked + [i];
        assert visits[..k + 1][..k] == visits[..k];
      }
      assert visits[..|visits|] == visits;
    }
  }

  function Lost(visits: seq<Visit>): (n: nat)
    ensures n <= |visits|
  {
    if visits == [] then 0 else Lost(visits[..|visits| - 1]) + if visits[|visits| - 1].quits then 0 else 1
  }

  lemma {:induction false} TallyOf(visits: seq<Visit>)
    ensures var t := After(visits);
            if |visits| <= MAX_CLIENTS then t == Tally(|visits|, Lost(visits))
            else if Lost(visits[..MAX_CLIENTS]) == MAX_CLIENTS then t == Tally(MAX_CLIENTS, MAX_CLIENTS)
            else t.count == MAX_CLIENTS + 1
  {
    if visits != [] {
      var front := visits[..|visits| - 1];
      TallyOf(front);
      if |front| >= MAX_CLIENTS {
        assert front[..MAX_CLIENTS] == visits[..MAX_CLIENTS];
        assert |front| == MAX_CLIENTS ==> front == visits[..MAX_CLIENTS];
      }
    }
  }

  /** A client gets a slot of the table exactly when at most a hundred were registered before it and not all of
      these hundred slots are lost. Otherwise it is refused, unless the first hundred clients all left without
      quitting: then the full table is not noticed, and the index is the one behind it. */
  lemma PickIsInTableIff(visits: seq<Visit>)
    ensures var i, n, allLost := Pick(After(visits)), |visits|,
                                 |visits| >= MAX_CLIENTS && Lost(visits[..MAX_CLIENTS]) == MAX_CLIENTS;
            && (0 <= i < MAX_CLIENTS <==> n <= MAX_CLIENTS && !allLost)
            && (i == -1 <==> n > MAX_CLIENTS && !allLost)
            && (i == MAX_CLIENTS <==> allLost)
            && (0 <= i < MAX_CLIENTS ==> i == Lost(visits))
  {
    TallyOf(visits);
    if |visits| == MAX_CLIENTS {
      assert visits[..MAX_CLIENTS] == visits;
    }
  }
}
