/** Go's `container/list`, to the pointer: a ring of elements through a root, and a length that is
    counted apart.  Clearing a list resets the root and the length and leaves the old elements
    linked to it, so one of them can still be removed afterwards. */
module LinkedLists {
  import opened Bytes

  const ROOT := 0

  type Pointers = map<nat, nat>

  /** Elements are numbered in the order they are made, and the root is 0.  `next` and `prev` hold
      the elements whose list pointer is set, and the root; a removed element has neither. */
  datatype Links = Links(next: Pointers, prev: Pointers, value: map<nat, nat>, len: int, nextId: nat)

  const EMPTY := Links(map[ROOT := ROOT], map[ROOT := ROOT], map[], 0, 1)

  /** Whoever is pointed to points back, unless it is the root. */
  predicate Answered(there: Pointers, back: Pointers, x: nat) {
    x in there ==> there[x] in there && (there[x] != ROOT ==> there[x] in back && back[there[x]] == x)
  }

  predicate Known(l: Links, x: nat) {
    && (x in l.next <==> x in l.prev)
    && (x in l.next && x != ROOT ==> x in l.value)
    && (x in l.value ==> ROOT < x < l.nextId)
  }

  /** Links go both ways, except that the root may have lost sight of an element. */
  ghost predicate Mutual(l: Links) {
    && ROOT in l.next && ROOT < l.nextId
    && (forall x :: Known(l, x))
    && (forall x :: Answered(l.next, l.prev, x))
    && (forall x :: Answered(l.prev, l.next, x))
  }

  lemma InsertAnswered(next: Pointers, prev: Pointers, at: nat, e: nat, x: nat)
    requires at in next && e !in next && e !in prev && e != ROOT && at in prev && next[at] in prev
    requires Answered(next, prev, at) && Answered(next, prev, x) && Answered(prev, next, x)
    ensures var next', prev' := next[e := next[at]][at := e], prev[e := at][next[at] := e];
      Answered(next', prev', x) && Answered(prev', next', x)
  {
  }

  function Inserted(l: Links, conn: nat): Links
    requires ROOT in l.prev && l.prev[ROOT] in l.next
  {
    var e, at := l.nextId, l.prev[ROOT];
    var after := l.next[at];
    l.(next := l.next[e := after][at := e], prev := l.prev[e := at][after := e],
       value := l.value[e := conn], len := l.len + 1, nextId := e + 1)
  }

  lemma PointersLeadSomewhere(l: Links, x: nat)
    requires Mutual(l) && x in l.next
    ensures x in l.prev && x < l.nextId && l.next[x] in l.next && l.prev[x] in l.next
    ensures l.next[x] in l.prev && l.prev[x] in l.prev
  {
    assert Known(l, x) && Answered(l.next, l.prev, x) && Answered(l.prev, l.next, x);
    assert Known(l, l.next[x]) && Known(l, l.prev[x]);
  }

  lemma InsertedIsMutual(l: Links, conn: nat)
    requires Mutual(l)
    ensures ROOT in l.prev && l.prev[ROOT] in l.next && Mutual(Inserted(l, conn))
  {
    hide Answered;
    PointersLeadSomewhere(l, ROOT);
    var e, at := l.nextId, l.prev[ROOT];
    PointersLeadSomewhere(l, at);
    assert Known(l, e);
    var l' := Inserted(l, conn);
    forall x: nat
      ensures Known(l', x) && Answered(l'.next, l'.prev, x) && Answered(l'.prev, l'.next, x)
    {
      assert Known(l, x) && Answered(l.next, l.prev, x) && Answered(l.prev, l.next, x);
      InsertAnswered(l.next, l.prev, at, e, x);
    }
  }

  lemma RemoveAnswered(next: Pointers, prev: Pointers, e: nat, x: nat)
    requires e in next && e in prev && e != ROOT
    requires Answered(next, prev, e) && Answered(prev, next, e)
    requires Answered(next, prev, x) && Answered(prev, next, x)
    ensures var next', prev' := next[prev[e] := next[e]] - {e}, prev[next[e] := prev[e]] - {e};
      Answered(next', prev', x) && Answered(prev', next', x)
  {
  }

  function Removed(l: Links, e: nat): Links
    requires e in l.next && e in l.prev
  {
    var before, after := l.prev[e], l.next[e];
    l.(next := l.next[before := after] - {e}, prev := l.prev[after := before] - {e}, len := l.len - 1)
  }

  lemma RemovedIsMutual(l: Links, e: nat)
    requires Mutual(l) && e in l.next && e != ROOT
    ensures e in l.prev && Mutual(Removed(l, e))
  {
    hide Answered;
    PointersLeadSomewhere(l, e);
    PointersLeadSomewhere(l, ROOT);
    var l' := Removed(l, e);
    forall x: nat
      ensures Known(l', x) && Answered(l'.next, l'.prev, x) && Answered(l'.prev, l'.next, x)
    {
      assert Known(l, x) && Answered(l.next, l.prev, x) && Answered(l.prev, l.next, x);
      assert Answered(l.next, l.prev, e) && Answered(l.prev, l.next, e);
      RemoveAnswered(l.next, l.prev, e, x);
    }
  }

  function Cleared(l: Links): Links {
    l.(next := l.next[ROOT := ROOT], prev := l.prev[ROOT := ROOT], len := 0)
  }

  lemma ClearedIsMutual(l: Links)
    requires Mutual(l)
    ensures Mutual(Cleared(l))
  {
    assert Known(l, ROOT);
    forall x: nat
      ensures var l' := Cleared(l); Known(l', x) && Answered(l'.next, l'.prev, x) && Answered(l'.prev, l'.next, x)
    {
      assert Known(l, x) && Answered(l.next, l.prev, x) && Answered(l.prev, l.next, x);
    }
  }

  /** Every list is made by the operations below, so no removed element is ever pointed to and no
      nil pointer followed, whatever is removed after a clear. */
  type List = l: Links | Mutual(l) witness EMPTY

  function PushBack(l: List, conn: nat): List {
    InsertedIsMutual(l, conn);
    Inserted(l, conn)
  }

  /** The element's list pointer is set. */
  predicate Linked(l: Links, e: nat) {
    e != ROOT && e in l.next
  }

  /** An element without a list pointer is left alone. */
  function Remove(l: List, e: nat): List {
    if Linked(l, e) then RemovedIsMutual(l, e); Removed(l, e) else l
  }

  function Clear(l: List): List {
    ClearedIsMutual(l);
    Cleared(l)
  }

  /** With a length other than 0 the root itself can come back. */
  function Back(l: List): (e: Option<nat>)
    ensures e.Some? ==> e.value in l.next
  {
    PointersLeadSomewhere(l, ROOT);
    if l.len == 0 then None else Some(l.prev[ROOT])
  }

  function Front(l: List): Option<nat> {
    if l.len == 0 then None else Some(l.next[ROOT])
  }

  function Following(l: List, e: nat): Option<nat> {
    if Linked(l, e) && l.next[e] != ROOT then Some(l.next[e]) else None
  }

  // ---- what a list holds ----

  predicate Ascending(es: seq<nat>) {
    forall i, j | 0 <= i < j < |es| :: es[i] < es[j]
  }

  /** The linked elements with numbers from `from` up to but not including `limit`. */
  function Elements(l: Links, from: nat, limit: nat): (es: seq<nat>)
    ensures Ascending(es)
    ensures forall e :: e in es <==> from <= e < limit && Linked(l, e)
    ensures forall i | 0 <= i < |es| :: es[i] < limit
    decreases limit
  {
    if limit <= from then []
    else Elements(l, from, limit - 1) + if Linked(l, limit - 1) then [limit - 1] else []
  }

  function Conns(l: List, es: seq<nat>): (conns: seq<nat>)
    requires forall e | e in es :: e in l.value
    ensures |conns| == |es|
  {
    seq(|es|, i requires 0 <= i < |es| => l.value[es[i]])
  }

  /** What comes before the element at `i`, the root being before the first and after the last. */
  function Before(es: seq<nat>, i: nat): nat
    requires i <= |es|
  {
    if i == 0 then ROOT else es[i - 1]
  }

  predicate Joined(l: Links, es: seq<nat>, i: nat)
    requires i < |es|
  {
    Linked(l, es[i]) && es[i] in l.prev && l.prev[es[i]] == Before(es, i)
  }

  /** The ring is made of these elements, and the length is theirs. */
  ghost predicate Represents(l: List, es: seq<nat>) {
    && l.len == |es| && Ascending(es)
    && (forall i | 0 <= i < |es| :: Joined(l, es, i))
    && ROOT in l.next && l.next[ROOT] == (if es == [] then ROOT else es[0])
    && ROOT in l.prev && l.prev[ROOT] == Before(es, |es|)
  }

  /** Forward and backward agree. */
  lemma RepresentedNext(l: List, es: seq<nat>, i: nat)
    requires Represents(l, es) && i < |es|
    ensures Joined(l, es, i) && l.next[es[i]] == if i == |es| - 1 then ROOT else es[i + 1]
  {
    if i == |es| - 1 {
      assert Joined(l, es, i) && Answered(l.prev, l.next, ROOT);
    } else {
      assert Joined(l, es, i) && Joined(l, es, i + 1) && Answered(l.prev, l.next, es[i + 1]);
    }
  }

  lemma ValueKnown(l: List, e: nat)
    requires Linked(l, e)
    ensures e in l.value && 0 < e < l.nextId && e in l.prev
  {
    assert Known(l, e);
  }

  lemma AscendingAppend(es: seq<nat>, e: nat)
    requires Ascending(es) && forall i | 0 <= i < |es| :: es[i] < e
    ensures Ascending(es + [e])
  {
  }

  lemma PushBackJoins(l: List, es: seq<nat>, conn: nat, i: nat)
    requires Represents(l, es) && i <= |es|
    ensures Joined(PushBack(l, conn), es + [l.nextId], i)
    ensures i < |es| ==> es[i] < l.nextId
  {
    hide Mutual, Answered, Known, Ascending;
    NextIdIsNew(l);
    var es' := es + [l.nextId];
    if i < |es| {
      assert Joined(l, es, i) && es'[i] == es[i] && Before(es', i) == Before(es, i);
      ValueKnown(l, es[i]);
      RepresentedNext(l, es, |es| - 1);
    } else {
      assert es'[i] == l.nextId && Before(es', i) == Before(es, i);
    }
  }

  lemma PushBackRepresents(l: List, es: seq<nat>, conn: nat)
    requires Represents(l, es)
    ensures Represents(PushBack(l, conn), es + [l.nextId])
  {
    hide Mutual, Answered, Known, Ascending, Joined;
    if es != [] {
      RepresentedNext(l, es, |es| - 1);
      assert Joined(l, es, |es| - 1) ==> es[|es| - 1] != ROOT by { JoinedIsLinked(l, es, |es| - 1); }
    }
    forall i | 0 <= i <= |es|
      ensures Joined(PushBack(l, conn), es + [l.nextId], i)
      ensures i < |es| ==> es[i] < l.nextId
    {
      PushBackJoins(l, es, conn, i);
    }
    AscendingAppend(es, l.nextId);
  }

  lemma JoinedIsLinked(l: Links, es: seq<nat>, i: nat)
    requires i < |es| && Joined(l, es, i)
    ensures Linked(l, es[i]) && l.prev[es[i]] == Before(es, i)
  {
  }

  lemma NextIdIsNew(l: List)
    ensures l.nextId != ROOT && !Linked(l, l.nextId)
    ensures ROOT in l.prev && l.prev[ROOT] in l.next && l.next[l.prev[ROOT]] != l.nextId
  {
    assert Known(l, l.nextId);
    PointersLeadSomewhere(l, ROOT);
    PointersLeadSomewhere(l, l.prev[ROOT]);
  }

  lemma AscendingWithout(es: seq<nat>, k: nat)
    requires Ascending(es) && k < |es|
    ensures Ascending(es[..k] + es[k + 1..])
    ensures forall i | 0 <= i < |es| && i != k :: es[i] != es[k]
  {
    var es' := es[..k] + es[k + 1..];
    assert forall i | 0 <= i < |es'| :: es'[i] == es[if i < k then i else i + 1];
  }

  lemma RemoveJoins(l: List, es: seq<nat>, k: nat, i: nat)
    requires Represents(l, es) && k < |es| && i < |es| - 1
    ensures Joined(Remove(l, es[k]), es[..k] + es[k + 1..], i)
  {
    hide Mutual, Answered, Known, Ascending;
    var j := if i < k then i else i + 1;
    var es' := es[..k] + es[k + 1..];
    assert Joined(l, es, j);
    AscendingWithout(es, k);
    RepresentedNext(l, es, k);
    assert es'[i] == es[j];
    if i == k {
      assert Before(es', i) == Before(es, k);
    } else {
      assert Before(es', i) == Before(es, j);
      if k + 1 < |es| {
        AscendingWithout(es, k + 1);
      }
    }
  }

  lemma RemoveRepresents(l: List, es: seq<nat>, k: nat)
    requires Represents(l, es) && k < |es|
    ensures Represents(Remove(l, es[k]), es[..k] + es[k + 1..])
  {
    hide Mutual, Answered, Known, Ascending, Joined;
    RepresentedNext(l, es, k);
    JoinedIsLinked(l, es, k);
    if k > 0 {
      JoinedIsLinked(l, es, k - 1);
    }
    if k + 1 < |es| {
      JoinedIsLinked(l, es, k + 1);
    }
    AscendingWithout(es, k);
    var es' := es[..k] + es[k + 1..];
    assert Before(es', |es'|) == if k == |es| - 1 then Before(es, k) else Before(es, |es|);
    assert es' != [] ==> es'[0] == if k == 0 then es[1] else es[0];
    forall i | 0 <= i < |es'|
      ensures Joined(Remove(l, es[k]), es', i)
    {
      RemoveJoins(l, es, k, i);
    }
  }

  /** Clearing puts any list right, whatever was done to it. */
  lemma ClearRepresents(l: List)
    ensures Represents(Clear(l), [])
  {
  }

  function Without(es: seq<nat>, e: nat): (rest: seq<nat>)
    ensures e !in es ==> rest == es
  {
    if es == [] then []
    else Without(es[..|es| - 1], e) + if es[|es| - 1] == e then [] else [es[|es| - 1]]
  }

  lemma {:induction false} WithoutIsCut(es: seq<nat>, k: nat)
    requires Ascending(es) && k < |es|
    ensures Without(es, es[k]) == es[..k] + es[k + 1..]
  {
    var n := |es| - 1;
    AscendingWithout(es, k);
    if k == n {
      assert es[k] !in es[..n];
      assert es[k + 1..] == [];
    } else {
      assert es[..n][k] == es[k];
      WithoutIsCut(es[..n], k);
      assert es[..n][..k] == es[..k] && es[k + 1..] == es[..n][k + 1..] + [es[n]];
    }
  }

  lemma {:induction false} ElementsAgree(l: Links, l': Links, from: nat, limit: nat)
    requires forall e | from <= e < limit :: Linked(l, e) <==> Linked(l', e)
    ensures Elements(l, from, limit) == Elements(l', from, limit)
    decreases limit
  {
    if limit <= from {
    } else {
      ElementsAgree(l, l', from, limit - 1);
      assert Linked(l, limit - 1) <==> Linked(l', limit - 1);
    }
  }

  lemma PushBackElements(l: List, from: nat, conn: nat)
    requires from <= l.nextId
    ensures Elements(PushBack(l, conn), from, l.nextId + 1) == Elements(l, from, l.nextId) + [l.nextId]
  {
    NextIdIsNew(l);
    ElementsAgree(l, PushBack(l, conn), from, l.nextId);
  }

  lemma RemoveUnlinksOne(l: List, e: nat)
    ensures forall x :: Linked(Remove(l, e), x) <==> Linked(l, x) && x != e
    ensures Remove(l, e).nextId == l.nextId && Remove(l, e).value == l.value
  {
    if Linked(l, e) {
      PointersLeadSomewhere(l, e);
    }
  }

  lemma WithoutAppend(es: seq<nat>, x: nat, e: nat)
    ensures Without(es + [x], e) == Without(es, e) + if x == e then [] else [x]
  {
    assert (es + [x])[..|es|] == es;
  }

  lemma {:induction false} RemoveElements(l: List, from: nat, limit: nat, e: nat)
    ensures Elements(Remove(l, e), from, limit) == Without(Elements(l, from, limit), e)
    decreases limit
  {
    hide Mutual, Remove, Ascending, Linked, Without;
    if limit <= from {
    } else {
      RemoveElements(l, from, limit - 1, e);
      RemoveUnlinksOne(l, e);
      var es := Elements(l, from, limit - 1);
      if Linked(l, limit - 1) {
        WithoutAppend(es, limit - 1, e);
      } else {
        assert es + [] == es && Without(es, e) + [] == Without(es, e);
      }
    }
  }

  /** The list is in step with its contents: the elements made since `from` and not removed. */
  ghost predicate InStep(l: List, from: nat) {
    Represents(l, Elements(l, from, l.nextId))
  }

  lemma PushBackKeepsStep(l: List, from: nat, conn: nat)
    requires InStep(l, from) && from <= l.nextId
    ensures InStep(PushBack(l, conn), from) && PushBack(l, conn).nextId == l.nextId + 1
  {
    hide Mutual, Represents, Elements;
    PushBackElements(l, from, conn);
    PushBackRepresents(l, Elements(l, from, l.nextId), conn);
  }

  /** Removing an element keeps a list in step exactly if the element is one of its contents; an
      element from before the clear takes one from the length that was never counted. */
  lemma RemoveKeepsStepIff(l: List, from: nat, e: nat)
    requires InStep(l, from) && Linked(l, e)
    ensures InStep(Remove(l, e), from) <==> e >= from
  {
    hide Mutual, Represents;
    var es := Elements(l, from, l.nextId);
    RemoveElements(l, from, l.nextId, e);
    LengthOf(l, es);
    if e >= from {
      ValueKnown(l, e);
      var k :| 0 <= k < |es| && es[k] == e;
      RemoveRepresents(l, es, k);
      WithoutIsCut(es, k);
    } else if InStep(Remove(l, e), from) {
      LengthOf(Remove(l, e), es);
      assert false;
    }
  }

  lemma LengthOf(l: List, es: seq<nat>)
    requires Represents(l, es)
    ensures l.len == |es|
  {
  }

  lemma ClearIsInStep(l: List)
    ensures InStep(Clear(l), l.nextId)
  {
    ClearRepresents(l);
  }

  /** A list of its own, whose elements are none of another list's. */
  function NewList(nextId: nat): (l: List)
    requires nextId > 0
    ensures InStep(l, nextId) && ConnsSince(l, nextId) == [] && l.nextId == nextId
  {
    var l := EMPTY.(nextId := nextId);
    NewIsMutual(nextId);
    l
  }

  lemma NewIsMutual(nextId: nat)
    requires nextId > 0
    ensures Mutual(EMPTY.(nextId := nextId))
  {
  }

  lemma ConnsKnown(l: List, from: nat, limit: nat)
    ensures forall e | e in Elements(l, from, limit) :: e in l.value
  {
    forall e | e in Elements(l, from, limit)
      ensures e in l.value
    {
      ValueKnown(l, e);
    }
  }

  /** The connections of the linked elements from `from` on. */
  function ConnsSince(l: List, from: nat): seq<nat> {
    ConnsKnown(l, from, l.nextId);
    Conns(l, Elements(l, from, l.nextId))
  }

  /** Walking a list that is in step visits its contents: from the front, ... */
  lemma WalkStarts(l: List, from: nat)
    requires InStep(l, from)
    ensures var es := Elements(l, from, l.nextId);
      && l.len == |es| == |ConnsSince(l, from)| && l.nextId > 0
      && Front(l) == (if es == [] then None else Some(es[0]))
      && Back(l) == (if es == [] then None else Some(es[|es| - 1]))
  {
    hide Elements, Answered, Known;
    ConnsKnown(l, from, l.nextId);
  }

  /** ... each element leading to the one after it. */
  lemma WalkContinues(l: List, from: nat, i: nat)
    requires InStep(l, from) && i < |Elements(l, from, l.nextId)|
    ensures var es := Elements(l, from, l.nextId);
      && es[i] in l.value && |ConnsSince(l, from)| == |es| && ConnsSince(l, from)[i] == l.value[es[i]]
      && Following(l, es[i]) == if i + 1 < |es| then Some(es[i + 1]) else None
  {
    hide Mutual, Elements;
    ConnsKnown(l, from, l.nextId);
    var es := Elements(l, from, l.nextId);
    RepresentedNext(l, es, i);
    if i + 1 < |es| {
      RepresentedNext(l, es, i + 1);
    }
  }

  lemma PushBackConns(l: List, from: nat, conn: nat)
    requires from <= l.nextId
    ensures ConnsSince(PushBack(l, conn), from) == ConnsSince(l, from) + [conn]
  {
    PushBackElements(l, from, conn);
    ConnsKnown(l, from, l.nextId);
    ConnsKnown(PushBack(l, conn), from, l.nextId + 1);
  }

  lemma ConnsCut(l: List, es: seq<nat>, k: nat)
    requires forall e | e in es :: e in l.value
    requires k < |es|
    ensures multiset(Conns(l, es[..k] + es[k + 1..])) + multiset{l.value[es[k]]} == multiset(Conns(l, es))
  {
    hide Mutual;
    var conns := Conns(l, es);
    assert conns == conns[..k] + [conns[k]] + conns[k + 1..];
    assert Conns(l, es[..k] + es[k + 1..]) == conns[..k] + conns[k + 1..];
  }

  lemma RemoveTakesOne(l: List, from: nat, e: nat)
    requires Linked(l, e) && from <= e
    ensures e in l.value
    ensures multiset(ConnsSince(Remove(l, e), from)) + multiset{l.value[e]} == multiset(ConnsSince(l, from))
  {
    hide Mutual, Remove, Ascending, Linked, Without, Conns;
    ValueKnown(l, e);
    var es := Elements(l, from, l.nextId);
    var k :| 0 <= k < |es| && es[k] == e;
    RemoveElements(l, from, l.nextId, e);
    RemoveUnlinksOne(l, e);
    WithoutIsCut(es, k);
    ConnsKnown(l, from, l.nextId);
    ConnsCut(l, es, k);
    SameConns(Remove(l, e), l, es[..k] + es[k + 1..]);
  }

  lemma SameConns(l: List, l': List, es: seq<nat>)
    requires l.value == l'.value && forall e | e in es :: e in l.value
    ensures Conns(l, es) == Conns(l', es)
  {
  }

  lemma RemoveLength(l: List, from: nat, e: nat)
    requires Linked(l, e)
    ensures Remove(l, e).len == l.len - 1
    ensures |Elements(Remove(l, e), from, l.nextId)| == |Elements(l, from, l.nextId)| - if e >= from then 1 else 0
  {
    hide Mutual;
    var es := Elements(l, from, l.nextId);
    RemoveElements(l, from, l.nextId, e);
    ValueKnown(l, e);
    if e >= from {
      var k :| 0 <= k < |es| && es[k] == e;
      WithoutIsCut(es, k);
    }
  }

  lemma {:induction false} ElementsSplit(l: Links, from: nat, middle: nat, limit: nat)
    requires from <= middle <= limit
    ensures Elements(l, from, limit) == Elements(l, from, middle) + Elements(l, middle, limit)
    decreases limit
  {
    if limit <= middle {
    } else {
      ElementsSplit(l, from, middle, limit - 1);
    }
  }

  /** The connections of the linked elements made before `limit`. */
  function ConnsBefore(l: List, limit: nat): seq<nat> {
    ConnsKnown(l, 1, limit);
    Conns(l, Elements(l, 1, limit))
  }

  lemma ConnsSplit(l: List, since: nat)
    requires 1 <= since <= l.nextId
    ensures ConnsSince(l, 1) == ConnsBefore(l, since) + ConnsSince(l, since)
  {
    ElementsSplit(l, 1, since, l.nextId);
    ConnsKnown(l, 1, since);
    ConnsKnown(l, since, l.nextId);
  }

  lemma ClearKeepsElements(l: List, from: nat, limit: nat)
    ensures Elements(Clear(l), from, limit) == Elements(l, from, limit)
  {
    ElementsAgree(Clear(l), l, from, limit);
  }

  lemma ClearKeepsConns(l: List, from: nat)
    ensures ConnsSince(Clear(l), from) == ConnsSince(l, from)
  {
    ClearKeepsElements(l, from, l.nextId);
    ConnsKnown(l, from, l.nextId);
  }

  /** A list that an element is removed from after the clear is left with a length of -1, and shows
      the predecessor of the last element, or its own root, as its back. */
  lemma LateRemovalShows(l: List, es: seq<nat>, k: nat)
    requires Represents(l, es) && k < |es|
    ensures var l' := Remove(Clear(l), es[k]);
      l'.len == -1 && Back(l') == Some(if k == |es| - 1 then Before(es, k) else ROOT)
  {
    hide Mutual, Ascending, Answered, Known;
    RepresentedNext(l, es, k);
    if k + 1 < |es| {
      RepresentedNext(l, es, k + 1);
    }
  }

  /** And what is added between the clear and the removal of the last element is not shown. */
  lemma LateRemovalHides(l: List, es: seq<nat>, conn: nat)
    requires Represents(l, es) && es != []
    ensures var l' := Remove(PushBack(Clear(l), conn), es[|es| - 1]);
      Linked(l', l.nextId) && Back(l') == None && l'.prev[ROOT] == Before(es, |es| - 1) != l.nextId
  {
    hide Ascending, Answered;
    RepresentedNext(l, es, |es| - 1);
    ValueKnown(l, es[|es| - 1]);
    NextIdIsNew(l);
    if |es| > 1 {
      RepresentedNext(l, es, |es| - 2);
      ValueKnown(l, es[|es| - 2]);
    }
  }

  lemma PushBackLinks(l: List, conn: nat)
    ensures forall x | Linked(l, x) :: Linked(PushBack(l, conn), x)
    ensures PushBack(l, conn).nextId == l.nextId + 1 && PushBack(l, conn).len == l.len + 1
  {
  }

  lemma ClearKeepsValues(l: List)
    ensures Clear(l).value == l.value && Clear(l).nextId == l.nextId
  {
  }

  lemma RootHasNoValue(l: List)
    ensures ROOT !in l.value
  {
    assert Known(l, ROOT);
  }

  lemma InStepLength(l: List, from: nat)
    requires InStep(l, from)
    ensures l.len == |Elements(l, from, l.nextId)|
  {
  }

  /** Taking the back of a list that is in step takes the last of its contents. */
  lemma TakeLast(l: List, from: nat)
    requires InStep(l, from) && ConnsSince(l, from) != []
    ensures var conns := ConnsSince(l, from);
      Back(l).Some? && var e := Back(l).value;
        && e in l.value && l.value[e] == conns[|conns| - 1]
        && InStep(Remove(l, e), from) && ConnsSince(Remove(l, e), from) == conns[..|conns| - 1]
  {
    hide Mutual, InStep, Elements, Remove, Ascending, Linked, Without;
    WalkStarts(l, from);
    var es := Elements(l, from, l.nextId);
    var n := |es| - 1;
    WalkContinues(l, from, n);
    assert es[n] in es;
    assert Linked(l, es[n]) && es[n] >= from;
    RemoveKeepsStepIff(l, from, es[n]);
    RemoveElements(l, from, l.nextId, es[n]);
    RemoveUnlinksOne(l, es[n]);
    WithoutIsCut(es, n);
    assert es[..n] + es[n + 1..] == es[..n];
    ConnsKnown(l, from, l.nextId);
  }
}
