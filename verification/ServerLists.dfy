/** The server's two connection lists. */
module ServerLists {
  import opened Bytes
  import opened LinkedLists

  /** What a purge keeps: the wrappers that are still open, in order. */
  function KeepOpen(conns: seq<nat>, closed: set<nat>): (kept: seq<nat>)
    ensures |kept| <= |conns|
    ensures forall c :: c in kept <==> c in conns && c !in closed
  {
    if conns == [] then []
    else KeepOpen(conns[..|conns| - 1], closed) + if conns[|conns| - 1] in closed then [] else [conns[|conns| - 1]]
  }

  /** A purge makes room exactly if something listed is closed. */
  lemma {:induction false} KeepOpenShrinksIff(conns: seq<nat>, closed: set<nat>)
    ensures |KeepOpen(conns, closed)| < |conns| <==> exists c :: c in conns && c in closed
  {
    if conns == [] {
    } else {
      var front, last := conns[..|conns| - 1], conns[|conns| - 1];
      KeepOpenShrinksIff(front, closed);
      assert conns == front + [last];
      assert forall c :: c in conns <==> c in front || c == last;
    }
  }

  /** A locked list.  `since` is the number the next element had when the list was last cleared. */
  class ConnList {
    var innerList: List
    ghost var since: nat

    ghost predicate Valid()
      reads this
    {
      since <= innerList.nextId && InStep(innerList, since)
    }

    ghost function Listed(): seq<nat>
      reads this
    {
      ConnsSince(innerList, since)
    }

    constructor ()
      ensures Valid() && Listed() == []
    {
      innerList, since := NewList(1), 1;
    }

    method PurgeClosedConnections(closed: set<nat>)
      requires Valid()
      modifies this
      ensures Valid() && Listed() == KeepOpen(old(Listed()), closed)
    {
      hide InStep, Elements, ConnsSince, Mutual, PushBack, Following;
      WalkStarts(innerList, since);
      if innerList.len == 0 {
        return;
      }
      var k := NewList(innerList.nextId);
      ghost var es, conns, start := Elements(innerList, since, innerList.nextId), Listed(), innerList.nextId;
      var e := Front(innerList);
      ghost var i := 0;
      while e.Some?
        invariant i <= |es| && e == if i < |es| then Some(es[i]) else None
        invariant innerList == old(innerList) && since == old(since)
        invariant start <= k.nextId && InStep(k, start) && ConnsSince(k, start) == KeepOpen(conns[..i], closed)
        decreases |es| - i
      {
        WalkContinues(innerList, since, i);
        assert conns[..i + 1][..i] == conns[..i];
        var v := innerList.value[e.value];
        if v !in closed {
          PushBackKeepsStep(k, start, v);
          PushBackConns(k, start, v);
          k := PushBack(k, v);
        }
        e := Following(innerList, e.value);
        i := i + 1;
      }
      assert conns[..|conns|] == conns;
      innerList, since := k, start;
    }

    method DumpConnListToSlice() returns (slice: seq<nat>)
      requires Valid()
      ensures slice == Listed()
    {
      hide InStep, Elements, ConnsSince, Mutual, Following;
      slice := [];
      ghost var es := Elements(innerList, since, innerList.nextId);
      WalkStarts(innerList, since);
      var e := Front(innerList);
      while e.Some?
        invariant |slice| <= |es| && e == if |slice| < |es| then Some(es[|slice|]) else None
        invariant slice == Listed()[..|slice|]
        decreases |es| - |slice|
      {
        WalkContinues(innerList, since, |slice|);
        slice := slice + [innerList.value[e.value]];
        e := Following(innerList, e.value);
      }
    }

    method ClearConnList()
      modifies this
      ensures innerList == Clear(old(innerList)) && since == innerList.nextId
      ensures Valid() && Listed() == []
    {
      ClearIsInStep(innerList);
      innerList, since := Clear(innerList), innerList.nextId;
    }

    method WriteConnListElement(conn: nat)
      modifies this`innerList
      ensures innerList == PushBack(old(innerList), conn)
      ensures old(Valid()) ==> Valid()
      ensures since <= old(innerList.nextId) ==> Listed() == old(Listed()) + [conn]
    {
      hide InStep, ConnsSince, Mutual;
      if Valid() {
        PushBackKeepsStep(innerList, since, conn);
      }
      if since <= innerList.nextId {
        PushBackConns(innerList, since, conn);
      }
      innerList := PushBack(innerList, conn);
    }

    /** The element may be one from before the last clear: then the list is no longer in step. */
    method RemoveConnListElement(e: nat) returns (conn: nat)
      requires e in innerList.value
      modifies this`innerList
      ensures innerList == Remove(old(innerList), e) && conn == innerList.value[e]
      ensures old(Valid()) && Linked(old(innerList), e) ==> (Valid() <==> e >= since)
      ensures Linked(old(innerList), e) && e >= since ==> multiset(Listed()) + multiset{conn} == old(multiset(Listed()))
    {
      hide InStep, ConnsSince, Mutual;
      if Linked(innerList, e) {
        if Valid() {
          RemoveKeepsStepIff(innerList, since, e);
        }
        if e >= since {
          RemoveTakesOne(innerList, since, e);
        }
      }
      RemoveUnlinksOne(innerList, e);
      innerList := Remove(innerList, e);
      conn := innerList.value[e];
    }
  }

  function SetOf(conns: seq<nat>): set<nat> {
    set c | c in conns
  }

  /** The server object; `closedConns` are the wrappers that answer true to `IsClosed`. */
  class NanoServer {
    const connectionsList: ConnList
    const allConnectionsList: ConnList
    var shutdown: bool
    var closedConns: set<nat>

    /** Only the list that elements are taken from one by one can be out of step. */
    ghost predicate Valid()
      reads connectionsList, allConnectionsList
    {
      && connectionsList != allConnectionsList && allConnectionsList.Valid()
      && connectionsList.since <= connectionsList.innerList.nextId
    }

    constructor ()
      ensures Valid() && fresh(connectionsList) && fresh(allConnectionsList)
      ensures !shutdown && connectionsList.Listed() == [] && allConnectionsList.Listed() == []
    {
      connectionsList := new ConnList();
      allConnectionsList := new ConnList();
      shutdown, closedConns := false, {};
    }

    method GetAllConnections() returns (conns: seq<nat>)
      requires Valid()
      ensures conns == if shutdown then [] else allConnectionsList.Listed()
    {
      if shutdown {
        return [];
      }
      conns := allConnectionsList.DumpConnListToSlice();
    }

    method AddConnection(conn: nat)
      requires Valid()
      modifies connectionsList, allConnectionsList
      ensures Valid() && (old(connectionsList.Valid()) ==> connectionsList.Valid())
      ensures connectionsList.Listed() == old(connectionsList.Listed()) + if shutdown then [] else [conn]
      ensures allConnectionsList.Listed() == old(allConnectionsList.Listed()) + if shutdown then [] else [conn]
    {
      if shutdown {
        return;
      }
      connectionsList.WriteConnListElement(conn);
      allConnectionsList.WriteConnListElement(conn);
    }

    /** Undisturbed, a reset closes everything listed and empties both lists; after a shutdown it
        closes nothing and still empties them. */
    method ResetConnections()
      requires Valid()
      modifies this`closedConns, connectionsList, allConnectionsList
      ensures closedConns == old(closedConns) + if shutdown then {} else SetOf(old(allConnectionsList.Listed()))
      ensures Valid() && connectionsList.Valid()
      ensures connectionsList.Listed() == [] && allConnectionsList.Listed() == []
    {
      hide InStep, ConnsSince, Mutual;
      var conns := GetAllConnections();
      for i := 0 to |conns|
        invariant closedConns == old(closedConns) + SetOf(conns[..i])
        invariant Valid()
      {
        assert conns[..i + 1] == conns[..i] + [conns[i]];
        if conns[i] !in closedConns {
          closedConns := closedConns + {conns[i]};
        }
      }
      assert conns[..|conns|] == conns;
      connectionsList.ClearConnList();
      allConnectionsList.ClearConnList();
    }
  }
}
