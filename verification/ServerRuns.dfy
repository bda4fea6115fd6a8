/** A running server: the listener, other adders, the purge, closings, the stream goroutine of
    `GetConnections` and `resetConnections`, in every interleaving.  Each locked list operation is
    one step. */
module ServerRuns {
  import opened Bytes
  import opened LinkedLists
  import opened ServerLists

  datatype ListenerPc = Accepting | Checking | Shaking | ToStream(conn: nat) | ToAll(conn: nat) | Stopped

  /** Someone other than the listener adding a wrapper: between the two lists, or done. */
  datatype AdderPc = AdderToStream(conn: nat) | AdderToAll(conn: nat) | AdderDone

  datatype ResetPc = NoReset | Closing(todo: seq<nat>) | Clearing

  datatype StreamPc = StreamOff | Looking | Held(node: nat) | InFlight(conn: nat)

  /** `accepted` are the wrappers ever put in `all`; `added` those put on the stream list.  `since` is
      the number the next element of the stream list had when that list was last cleared.  `all` is
      never removed from element by element, so its contents stand for it. */
  datatype Server = Server(
    stream: List, since: nat, all: seq<nat>, closed: set<nat>, shutdown: bool,
    listener: ListenerPc, adders: map<nat, AdderPc>,
    reset: ResetPc, accepted: set<nat>,
    streaming: StreamPc, streamInit: bool, added: multiset<nat>, delivered: seq<nat>)

  const START := Server(NewList(1), 1, [], {}, false, Accepting, map[], NoReset, {},
                        StreamOff, false, multiset{}, [])

  datatype Event =
    | Accept | ListenerFails | Check | HandshakeFails | Wrapped(conn: nat)
    | ListenerToStream | ListenerToAll
    | AdderBegins(a: nat, conn: nat) | AdderWritesStream(a: nat) | AdderWritesAll(a: nat)
    | Purge | WrapperCloses(conn: nat)
    | ResetBegins | ResetClosesNext | ResetClearsStream | ResetClearsAll | Seal
    | StreamBegins | StreamLooks | StreamTakes | StreamSkips | StreamDelivers | StreamEnds

  function PutStream(s: Server, conn: nat): Server {
    s.(stream := PushBack(s.stream, conn), added := s.added + multiset{conn})
  }

  function PutAll(s: Server, conn: nat): Server {
    s.(all := s.all + [conn], accepted := s.accepted + {conn})
  }

  /** The listener: one connection after the other, and for good to a stop when the test finds the
      cap reached. */
  function NextListener(max: nat, s: Server, e: Event): Option<Server> {
    match (e, s.listener)
    case (Accept, Accepting) => Some(s.(listener := Checking))
    case (ListenerFails, Accepting) => Some(s.(listener := Stopped))
    case (Check, Checking) => Some(s.(listener := if |s.all| == max then Stopped else Shaking))
    case (HandshakeFails, Shaking) => Some(s.(listener := Accepting))
    case (Wrapped(conn), Shaking) => Some(s.(listener := if s.shutdown then Accepting else ToStream(conn)))
    case (ListenerToStream, ToStream(conn)) => Some(PutStream(s, conn).(listener := ToAll(conn)))
    case (ListenerToAll, ToAll(conn)) => Some(PutAll(s, conn).(listener := Accepting))
    case _ => None
  }

  function NextAdder(s: Server, e: Event): Option<Server>
    requires e.AdderBegins? || e.AdderWritesStream? || e.AdderWritesAll?
  {
    if e.AdderBegins? then
      if e.a in s.adders then None
      else Some(s.(adders := s.adders[e.a := if s.shutdown then AdderDone else AdderToStream(e.conn)]))
    else if e.a !in s.adders then None
    else match (e, s.adders[e.a])
      case (AdderWritesStream(a), AdderToStream(conn)) =>
        Some(PutStream(s, conn).(adders := s.adders[a := AdderToAll(conn)]))
      case (AdderWritesAll(a), AdderToAll(conn)) => Some(PutAll(s, conn).(adders := s.adders[a := AdderDone]))
      case _ => None
  }

  /** One reset at a time; after the shutdown it is given no connections to close. */
  function NextReset(s: Server, e: Event): Option<Server> {
    match (e, s.reset)
    case (ResetBegins, NoReset) =>
      Some(s.(reset := Closing(if s.shutdown then [] else s.all)))
    case (ResetClosesNext, Closing(todo)) =>
      if todo == [] then None else Some(s.(reset := Closing(todo[1..]), closed := s.closed + {todo[0]}))
    case (ResetClearsStream, Closing(todo)) =>
      if todo != [] then None else Some(s.(reset := Clearing, stream := Clear(s.stream), since := s.stream.nextId))
    case (ResetClearsAll, Clearing) => Some(s.(reset := NoReset, all := []))
    case _ => None
  }

  /** The stream goroutine takes the newest element each time: a removed element has no next.  It
      holds an element from one tick to the next; the root, which carries no value, it skips. */
  function NextStream(s: Server, e: Event): Option<Server> {
    match (e, s.streaming)
    case (StreamBegins, StreamOff) =>
      if s.shutdown || s.streamInit then None else Some(s.(streaming := Looking, streamInit := true))
    case (StreamLooks, Looking) =>
      (match Back(s.stream) case None => None case Some(node) => Some(s.(streaming := Held(node))))
    case (StreamTakes, Held(node)) =>
      if node !in s.stream.value then None
      else Some(s.(stream := Remove(s.stream, node), streaming := InFlight(s.stream.value[node])))
    case (StreamSkips, Held(node)) => if node in s.stream.value then None else Some(s.(streaming := Looking))
    case (StreamDelivers, InFlight(conn)) => Some(s.(streaming := Looking, delivered := s.delivered + [conn]))
    case (StreamEnds, Looking) => if s.shutdown then Some(s.(streaming := StreamOff)) else None
    case (StreamEnds, Held(_)) => if s.shutdown then Some(s.(streaming := StreamOff)) else None
    case _ => None
  }

  function Next(max: nat, s: Server, e: Event): Option<Server> {
    match e
    case Purge => Some(s.(all := KeepOpen(s.all, s.closed)))
    case WrapperCloses(conn) => Some(s.(closed := s.closed + {conn}))
    case Seal => Some(s.(shutdown := true))
    case AdderBegins(_, _) => NextAdder(s, e)
    case AdderWritesStream(_) => NextAdder(s, e)
    case AdderWritesAll(_) => NextAdder(s, e)
    case ResetBegins => NextReset(s, e)
    case ResetClosesNext => NextReset(s, e)
    case ResetClearsStream => NextReset(s, e)
    case ResetClearsAll => NextReset(s, e)
    case StreamBegins => NextStream(s, e)
    case StreamLooks => NextStream(s, e)
    case StreamTakes => NextStream(s, e)
    case StreamSkips => NextStream(s, e)
    case StreamDelivers => NextStream(s, e)
    case StreamEnds => NextStream(s, e)
    case _ => NextListener(max, s, e)
  }

  ghost predicate Run(max: nat, s: Server, es: seq<Event>, s': Server)
    decreases |es|
  {
    if es == [] then s' == s
    else Next(max, s, es[0]).Some? && Run(max, Next(max, s, es[0]).value, es[1..], s')
  }

  // ---- the stream of new connections ----

  function Flying(pc: StreamPc): multiset<nat> {
    if pc.InFlight? then multiset{pc.conn} else multiset{}
  }

  ghost predicate StreamOk(s: Server) {
    && 1 <= s.since <= s.stream.nextId
    && s.added == multiset(s.delivered) + Flying(s.streaming) + multiset(ConnsSince(s.stream, 1))
    && (s.streaming.Held? ==> s.streaming.node == ROOT || Linked(s.stream, s.streaming.node))
  }

  lemma PutStreamConserves(s: Server, conn: nat)
    requires StreamOk(s)
    ensures StreamOk(PutStream(s, conn))
  {
    hide Mutual, Elements, ConnsSince;
    PushBackConns(s.stream, 1, conn);
    PushBackLinks(s.stream, conn);
  }

  lemma ClearStreamConserves(s: Server)
    requires StreamOk(s)
    ensures StreamOk(s.(stream := Clear(s.stream), since := s.stream.nextId))
  {
    hide Mutual, Elements, ConnsSince;
    ClearKeepsConns(s.stream, 1);
  }

  lemma TakeConserves(s: Server)
    requires StreamOk(s) && NextStream(s, StreamTakes).Some?
    ensures StreamOk(NextStream(s, StreamTakes).value)
  {
    hide Mutual, Elements, ConnsSince, Linked, Remove;
    var node := s.streaming.node;
    RootHasNoValue(s.stream);
    ValueKnown(s.stream, node);
    RemoveTakesOne(s.stream, 1, node);
    RemoveUnlinksOne(s.stream, node);
  }

  lemma LookConserves(s: Server)
    requires StreamOk(s) && NextStream(s, StreamLooks).Some?
    ensures StreamOk(NextStream(s, StreamLooks).value)
  {
    hide Mutual, Elements, ConnsSince;
  }

  lemma StreamStepConserves(s: Server, e: Event)
    requires StreamOk(s) && NextStream(s, e).Some?
    ensures StreamOk(NextStream(s, e).value)
  {
    hide Mutual, Elements, ConnsSince, Linked, Remove, Back;
    if e.StreamTakes? {
      TakeConserves(s);
    } else if e.StreamLooks? {
      LookConserves(s);
    }
  }

  /** What the stream depends on. */
  predicate SameStream(s: Server, s': Server) {
    && s'.stream == s.stream && s'.since == s.since && s'.added == s.added
    && s'.delivered == s.delivered && s'.streaming == s.streaming
  }

  /** The steps that touch the stream list, and what the others leave alone. */
  lemma StreamEffect(max: nat, s: Server, e: Event)
    requires Next(max, s, e).Some?
    ensures var s' := Next(max, s, e).value;
      if e.ListenerToStream? then s.listener.ToStream? && SameStream(PutStream(s, s.listener.conn), s')
      else if e.AdderWritesStream? then
        e.a in s.adders && s.adders[e.a].AdderToStream? && SameStream(PutStream(s, s.adders[e.a].conn), s')
      else if e.ResetClearsStream? then SameStream(s.(stream := Clear(s.stream), since := s.stream.nextId), s')
      else if OfStream(e) then Some(s') == NextStream(s, e)
      else SameStream(s, s')
  {
    hide Mutual;
  }

  predicate OfStream(e: Event) {
    e.StreamBegins? || e.StreamLooks? || e.StreamTakes? || e.StreamSkips? || e.StreamDelivers? || e.StreamEnds?
  }

  lemma StreamStays(max: nat, s: Server, e: Event)
    requires StreamOk(s) && Next(max, s, e).Some?
    ensures StreamOk(Next(max, s, e).value)
  {
    hide Next, NextStream, PutStream, Mutual, ConnsSince;
    StreamEffect(max, s, e);
    if e.ListenerToStream? {
      PutStreamConserves(s, s.listener.conn);
    } else if e.AdderWritesStream? {
      PutStreamConserves(s, s.adders[e.a].conn);
    } else if e.ResetClearsStream? {
      ClearStreamConserves(s);
    } else if OfStream(e) {
      StreamStepConserves(s, e);
    }
  }

  lemma {:induction false} RunConservesStream(max: nat, s: Server, es: seq<Event>, s': Server)
    requires StreamOk(s) && Run(max, s, es, s')
    ensures StreamOk(s')
    decreases |es|
  {
    hide StreamOk, Next;
    if es == [] {
    } else {
      StreamStays(max, s, es[0]);
      RunConservesStream(max, Next(max, s, es[0]).value, es[1..], s');
    }
  }

  lemma StartIsOk()
    ensures StreamOk(START)
  {
  }

  /** In every run, whatever is cleared and whenever, the wrappers added are those delivered, at most
      one in flight, those listed since the last clear and not yet taken, and those that clears have
      dropped; so none is delivered twice.  What the goroutine holds it can always dispose of. */
  lemma StreamConserves(max: nat, es: seq<Event>, s: Server)
    requires Run(max, START, es, s)
    ensures s.added == multiset(s.delivered) + Flying(s.streaming)
                       + multiset(ConnsSince(s.stream, s.since)) + multiset(ConnsBefore(s.stream, s.since))
    ensures s.streaming.Held? ==> NextStream(s, StreamTakes).Some? || NextStream(s, StreamSkips).Some?
  {
    hide Next, Run, Mutual, ConnsSince, ConnsBefore;
    StartIsOk();
    RunConservesStream(max, START, es, s);
    ConnsSplit(s.stream, s.since);
  }

  /** What the events tell: the goroutine holds an element; it has held it since before the last
      clear; such an element was taken after that clear. */
  datatype Watch = Watch(held: bool, stale: bool, late: bool)

  const UNWATCHED := Watch(false, false, false)

  function Seen(e: Event, w: Watch): Watch {
    match e
    case StreamLooks => w.(held := true, stale := false)
    case StreamTakes => Watch(false, false, w.late || w.stale)
    case StreamSkips => w.(held := false, stale := false)
    case StreamEnds => w.(held := false, stale := false)
    case ResetClearsStream => Watch(w.held, w.held, false)
    case _ => w
  }

  function Watched(es: seq<Event>, w: Watch): Watch
    decreases |es|
  {
    if es == [] then w else Watched(es[1..], Seen(es[0], w))
  }

  ghost predicate WatchOk(s: Server, w: Watch) {
    && StreamOk(s) && (w.held <==> s.streaming.Held?) && (w.stale ==> w.held && s.streaming.node < s.since)
    && if w.late then s.stream.len < |Elements(s.stream, s.since, s.stream.nextId)|
       else InStep(s.stream, s.since) && (w.held && !w.stale ==> s.streaming.node >= s.since)
  }

  lemma PutStreamWatched(s: Server, conn: nat, w: Watch)
    requires WatchOk(s, w)
    ensures WatchOk(PutStream(s, conn), w)
  {
    hide Mutual, Elements, InStep, StreamOk;
    StreamRange(s);
    PutStreamConserves(s, conn);
    PushBackLinks(s.stream, conn);
    if w.late {
      PushBackElements(s.stream, s.since, conn);
    } else {
      PushBackKeepsStep(s.stream, s.since, conn);
    }
  }

  lemma StreamRange(s: Server)
    requires StreamOk(s)
    ensures 1 <= s.since <= s.stream.nextId
    ensures s.streaming.Held? ==> s.streaming.node < s.stream.nextId
  {
    if s.streaming.Held? && s.streaming.node != ROOT {
      ValueKnown(s.stream, s.streaming.node);
    }
  }

  lemma ClearStreamWatched(s: Server, w: Watch)
    requires WatchOk(s, w)
    ensures WatchOk(s.(stream := Clear(s.stream), since := s.stream.nextId), Watch(w.held, w.held, false))
  {
    hide Mutual, Elements, InStep, StreamOk;
    StreamRange(s);
    ClearStreamConserves(s);
    ClearIsInStep(s.stream);
  }

  lemma TakeWatched(s: Server, w: Watch)
    requires WatchOk(s, w) && NextStream(s, StreamTakes).Some?
    ensures WatchOk(NextStream(s, StreamTakes).value, Seen(StreamTakes, w))
  {
    hide Mutual, Elements, InStep;
    var node := s.streaming.node;
    StreamStepConserves(s, StreamTakes);
    RootHasNoValue(s.stream);
    RemoveLength(s.stream, s.since, node);
    RemoveUnlinksOne(s.stream, node);
    if !w.late {
      RemoveKeepsStepIff(s.stream, s.since, node);
      InStepLength(s.stream, s.since);
    }
  }

  lemma LookWatched(s: Server, w: Watch)
    requires WatchOk(s, w) && NextStream(s, StreamLooks).Some?
    ensures WatchOk(NextStream(s, StreamLooks).value, Seen(StreamLooks, w))
  {
    hide Mutual, InStep, Elements, ConnsSince, Ascending;
    StreamStepConserves(s, StreamLooks);
    if !w.late {
      WalkStarts(s.stream, s.since);
      var es := Elements(s.stream, s.since, s.stream.nextId);
      assert es != [] ==> es[|es| - 1] in es;
    }
  }

  lemma WatchStays(max: nat, s: Server, e: Event, w: Watch)
    requires WatchOk(s, w) && Next(max, s, e).Some?
    ensures WatchOk(Next(max, s, e).value, Seen(e, w))
  {
    hide Next, PutStream, Mutual, Elements, InStep;
    StreamEffect(max, s, e);
    StreamStays(max, s, e);
    if e.ListenerToStream? {
      PutStreamWatched(s, s.listener.conn, w);
    } else if e.AdderWritesStream? {
      PutStreamWatched(s, s.adders[e.a].conn, w);
    } else if e.ResetClearsStream? {
      ClearStreamWatched(s, w);
    } else if e.StreamTakes? {
      TakeWatched(s, w);
    } else if e.StreamLooks? {
      LookWatched(s, w);
    }
  }

  lemma {:induction false} RunWatched(max: nat, s: Server, es: seq<Event>, s': Server, w: Watch)
    requires WatchOk(s, w) && Run(max, s, es, s')
    ensures WatchOk(s', Watched(es, w))
    decreases |es|
  {
    hide WatchOk, Next, Seen;
    if es == [] {
    } else {
      WatchStays(max, s, es[0], w);
      RunWatched(max, Next(max, s, es[0]).value, es[1..], s', Seen(es[0], w));
    }
  }

  lemma StartIsWatched()
    ensures WatchOk(START, UNWATCHED)
  {
  }

  /** In every run the stream list is in step with what was added since the last clear if and only if
      no element held across that clear was taken after it. */
  lemma StreamInStepIff(max: nat, es: seq<Event>, s: Server)
    requires Run(max, START, es, s)
    ensures InStep(s.stream, s.since) <==> !Watched(es, UNWATCHED).late
  {
    hide Next, Run, Mutual, InStep, Watched;
    StartIsWatched();
    RunWatched(max, START, es, s, UNWATCHED);
    if InStep(s.stream, s.since) {
      InStepLength(s.stream, s.since);
    }
  }

  // ---- which connections are lost ----

  /** Where a wrapper stands: not yet in `all`; in it, and a reset under way will not close it; dropped
      from it open; or closed, or about to be closed by a reset. */
  datatype Status = Unlisted | Listed(unseen: bool) | Dropped | Shut

  /** What the events tell about one wrapper: its status, whether the listener has it in hand, which
      adders have, whether a reset is under way, and whether the server has shut down. */
  datatype Fate = Fate(status: Status, listener: bool, adders: set<nat>, resetting: bool, sealed: bool)

  const UNBORN := Fate(Unlisted, false, {}, false, false)

  function ListedNow(f: Fate): Fate {
    if f.status.Unlisted? || f.status.Dropped? then f.(status := Listed(f.resetting)) else f
  }

  function FateStep(c: nat, e: Event, f: Fate): Fate {
    match e
    case Wrapped(d) => f.(listener := d == c && !f.sealed)
    case AdderBegins(a, d) => if d == c && !f.sealed then f.(adders := f.adders + {a}) else f
    case ListenerToAll => if f.listener then ListedNow(f).(listener := false) else f
    case AdderWritesAll(a) => if a in f.adders then ListedNow(f).(adders := f.adders - {a}) else f
    case WrapperCloses(d) => if d == c then f.(status := Shut) else f
    case ResetBegins => f.(resetting := true, status := if f.status.Listed? then Listed(f.sealed) else f.status)
    case ResetClearsAll =>
      f.(resetting := false,
         status := if f.status.Listed? then (if f.status.unseen then Dropped else Shut) else f.status)
    case Seal => f.(sealed := true)
    case _ => f
  }

  function FateOf(c: nat, es: seq<Event>, f: Fate): Fate
    decreases |es|
  {
    if es == [] then f else FateOf(c, es[1..], FateStep(c, es[0], f))
  }

  predicate InHand(s: Server, c: nat, a: nat) {
    a in s.adders && (s.adders[a] == AdderToStream(c) || s.adders[a] == AdderToAll(c))
  }

  predicate Todo(s: Server, c: nat) {
    s.reset.Closing? && c in s.reset.todo
  }

  predicate StatusOk(s: Server, c: nat, status: Status) {
    match status
    case Unlisted => c !in s.accepted && c !in s.all && c !in s.closed && !Todo(s, c)
    case Dropped => c in s.accepted && c !in s.all && c !in s.closed && !Todo(s, c)
    case Shut => c in s.closed
    case Listed(unseen) =>
      && c in s.accepted
      && if s.reset.NoReset? || unseen then c in s.all && c !in s.closed && !Todo(s, c)
         else c in s.closed || (c in s.all && Todo(s, c))
  }

  ghost predicate FateOk(s: Server, c: nat, f: Fate) {
    && (f.resetting <==> !s.reset.NoReset?) && (f.sealed <==> s.shutdown)
    && (f.listener <==> s.listener == ToStream(c) || s.listener == ToAll(c))
    && (forall a :: a in f.adders <==> InHand(s, c, a))
    && StatusOk(s, c, f.status)
  }

  lemma FateOfListener(max: nat, s: Server, e: Event, c: nat, f: Fate)
    requires FateOk(s, c, f) && NextListener(max, s, e).Some?
    ensures FateOk(NextListener(max, s, e).value, c, FateStep(c, e, f))
  {
    hide Mutual, PushBack;
    assert forall a :: InHand(NextListener(max, s, e).value, c, a) <==> InHand(s, c, a);
  }

  lemma FateOfAdder(s: Server, e: Event, c: nat, f: Fate)
    requires e.AdderBegins? || e.AdderWritesStream? || e.AdderWritesAll?
    requires FateOk(s, c, f) && NextAdder(s, e).Some?
    ensures FateOk(NextAdder(s, e).value, c, FateStep(c, e, f))
  {
    hide Mutual, PushBack;
    var s' := NextAdder(s, e).value;
    assert forall a | a != e.a :: InHand(s', c, a) <==> InHand(s, c, a);
  }

  lemma FateOfReset(s: Server, e: Event, c: nat, f: Fate)
    requires FateOk(s, c, f) && NextReset(s, e).Some?
    ensures FateOk(NextReset(s, e).value, c, FateStep(c, e, f))
  {
    hide Mutual, Clear;
    assert forall a :: InHand(NextReset(s, e).value, c, a) <==> InHand(s, c, a);
    if e.ResetClosesNext? {
      assert s.reset.todo == [s.reset.todo[0]] + s.reset.todo[1..];
    }
  }

  lemma StreamLeavesTheRest(s: Server, e: Event)
    requires NextStream(s, e).Some?
    ensures var s' := NextStream(s, e).value;
      && s'.all == s.all && s'.adders == s.adders && s'.listener == s.listener && s'.accepted == s.accepted
      && s'.closed == s.closed && s'.shutdown == s.shutdown && s'.reset == s.reset
  {
    hide Mutual, PushBack, Remove, Clear;
  }

  lemma FateStays(max: nat, s: Server, e: Event, c: nat, f: Fate)
    requires FateOk(s, c, f) && Next(max, s, e).Some?
    ensures FateOk(Next(max, s, e).value, c, FateStep(c, e, f))
  {
    hide Mutual, NextListener, NextAdder, NextReset, NextStream;
    var s' := Next(max, s, e).value;
    if e.AdderBegins? || e.AdderWritesStream? || e.AdderWritesAll? {
      FateOfAdder(s, e, c, f);
    } else if e.ResetBegins? || e.ResetClosesNext? || e.ResetClearsStream? || e.ResetClearsAll? {
      FateOfReset(s, e, c, f);
    } else if OfStream(e) {
      StreamLeavesTheRest(s, e);
      assert forall a :: InHand(s', c, a) <==> InHand(s, c, a);
    } else if e.Purge? || e.WrapperCloses? || e.Seal? {
      assert forall a :: InHand(s', c, a) <==> InHand(s, c, a);
    } else {
      FateOfListener(max, s, e, c, f);
    }
  }

  lemma {:induction false} RunFated(max: nat, s: Server, es: seq<Event>, s': Server, c: nat, f: Fate)
    requires FateOk(s, c, f) && Run(max, s, es, s')
    ensures FateOk(s', c, FateOf(c, es, f))
    decreases |es|
  {
    hide FateOk, Next, FateStep;
    if es == [] {
    } else {
      FateStays(max, s, es[0], c, f);
      RunFated(max, Next(max, s, es[0]).value, es[1..], s', c, FateStep(c, es[0], f));
    }
  }

  /** Exactly which connections are lost, in every run and for every wrapper however often it is added:
      a wrapper once accepted is open and no longer listed if and only if the events say that a reset
      cleared it away unseen, and that it was neither closed nor added again since. */
  lemma LostIff(max: nat, es: seq<Event>, s: Server, c: nat)
    requires Run(max, START, es, s)
    ensures (c in s.accepted && c !in s.closed && c !in s.all) <==> FateOf(c, es, UNBORN).status.Dropped?
  {
    hide Next, Run, FateOf, Mutual;
    RunFated(max, START, es, s, c, UNBORN);
  }

  /** Nothing is put in `all` between the beginning and the end of a reset, and no reset begins after
      the shutdown. */
  predicate Separate(es: seq<Event>, resetting: bool, sealed: bool)
    decreases |es|
  {
    es == [] || (
      && !(resetting && (es[0].ListenerToAll? || es[0].AdderWritesAll?))
      && !(sealed && es[0].ResetBegins?)
      && Separate(es[1..], (resetting || es[0].ResetBegins?) && !es[0].ResetClearsAll?, sealed || es[0].Seal?))
  }

  lemma {:induction false} WithoutResets(es: seq<Event>, sealed: bool)
    requires ResetBegins !in es
    ensures Separate(es, false, sealed)
    decreases |es|
  {
    if es == [] {
    } else {
      WithoutResets(es[1..], sealed || es[0].Seal?);
    }
  }

  predicate Spared(f: Fate) {
    !f.status.Dropped? && f.status != Listed(true)
  }

  lemma {:induction false} SeparateSpares(c: nat, es: seq<Event>, f: Fate)
    requires Spared(f) && Separate(es, f.resetting, f.sealed)
    ensures Spared(FateOf(c, es, f))
    decreases |es|
  {
    if es == [] {
    } else {
      SeparateSpares(c, es[1..], FateStep(c, es[0], f));
    }
  }

  /** No open connection is lost: each wrapper ever accepted is closed or still listed, in every run
      that keeps adds and resets apart. */
  lemma NoOpenConnectionIsLost(max: nat, es: seq<Event>, s: Server)
    requires Run(max, START, es, s) && Separate(es, false, false)
    ensures forall c | c in s.accepted :: c in s.closed || c in s.all
  {
    hide Next, Run, Separate, FateOf;
    forall c | c in s.accepted
      ensures c in s.closed || c in s.all
    {
      LostIff(max, es, s, c);
      SeparateSpares(c, es, UNBORN);
    }
  }

  /** This step puts `c` in `all`. */
  predicate Puts(s: Server, e: Event, c: nat) {
    || (e.ListenerToAll? && s.listener == ToAll(c))
    || (e.AdderWritesAll? && e.a in s.adders && s.adders[e.a] == AdderToAll(c))
  }

  /** A reset under way will not close `c`, which is open. */
  predicate Unseen(s: Server, c: nat) {
    !s.reset.NoReset? && c in s.accepted && c in s.all && c !in s.closed && !Todo(s, c)
  }

  lemma UnseenStays(max: nat, s: Server, e: Event, c: nat)
    requires Unseen(s, c) && Next(max, s, e).Some? && e != WrapperCloses(c) && !e.ResetClearsAll?
    ensures Unseen(Next(max, s, e).value, c)
  {
    hide Mutual, PushBack, Clear, NextStream;
    if OfStream(e) {
      StreamLeavesTheRest(s, e);
    }
  }

  lemma {:induction false} RunUnseen(max: nat, s: Server, es: seq<Event>, s': Server, c: nat)
    requires Unseen(s, c) && Run(max, s, es, s')
    requires forall i | 0 <= i < |es| :: es[i] != WrapperCloses(c) && !es[i].ResetClearsAll?
    ensures Unseen(s', c)
    decreases |es|
  {
    hide Next, Unseen;
    if es == [] {
    } else {
      UnseenStays(max, s, es[0], c);
      RunUnseen(max, Next(max, s, es[0]).value, es[1..], s', c);
    }
  }

  lemma PutUnseen(max: nat, s: Server, e: Event, c: nat)
    requires Puts(s, e, c) && Next(max, s, e).Some?
    requires !s.reset.NoReset? && c !in s.closed && !Todo(s, c)
    ensures Unseen(Next(max, s, e).value, c)
  {
    hide Mutual, PushBack, Clear, NextStream;
  }

  /** Every wrapper first listed while a reset is under way is lost at the end of that reset, unless
      it is closed by then. */
  lemma LateAddIsDropped(max: nat, before: seq<Event>, s: Server, e: Event, c: nat, after: seq<Event>, s': Server)
    requires Run(max, START, before, s) && !s.reset.NoReset? && c !in s.accepted && c !in s.closed
    requires Puts(s, e, c) && Next(max, s, e).Some? && Run(max, Next(max, s, e).value, after, s') && s'.reset.Clearing?
    requires forall i | 0 <= i < |after| :: after[i] != WrapperCloses(c) && !after[i].ResetClearsAll?
    ensures var end := NextReset(s', ResetClearsAll).value;
      c in end.accepted && c !in end.closed && c !in end.all
  {
    hide Next, Run, FateOf, Mutual, Puts;
    RunFated(max, START, before, s, c, UNBORN);
    assert !Todo(s, c);
    PutUnseen(max, s, e, c);
    RunUnseen(max, Next(max, s, e).value, after, s', c);
  }

  /** Nobody adds a wrapper and no further reset begins. */
  predicate Quiet(es: seq<Event>) {
    forall i | 0 <= i < |es| :: Undisturbing(es[i])
  }

  predicate Undisturbing(e: Event) {
    && !e.ListenerToStream? && !e.ListenerToAll? && !e.AdderWritesStream? && !e.AdderWritesAll?
    && !e.ResetBegins? && !e.ResetClearsAll?
  }

  /** While a reset runs undisturbed, nothing is accepted, and nothing is on a cleared stream list. */
  predicate Undisturbed(s: Server, accepted: set<nat>) {
    s.accepted == accepted && (s.reset.Clearing? ==> s.since == s.stream.nextId)
  }

  lemma UndisturbedStays(max: nat, s: Server, e: Event, accepted: set<nat>)
    requires Undisturbed(s, accepted) && Undisturbing(e) && Next(max, s, e).Some?
    ensures Undisturbed(Next(max, s, e).value, accepted)
  {
    hide Mutual, PushBack;
  }

  lemma {:induction false} QuietRun(max: nat, s: Server, es: seq<Event>, s': Server, accepted: set<nat>)
    requires Undisturbed(s, accepted) && Quiet(es) && Run(max, s, es, s')
    ensures Undisturbed(s', accepted)
    decreases |es|
  {
    hide Undisturbed, Next;
    if es == [] {
    } else {
      assert Undisturbing(es[0]);
      UndisturbedStays(max, s, es[0], accepted);
      QuietRun(max, Next(max, s, es[0]).value, es[1..], s', accepted);
    }
  }

  lemma {:induction false} QuietIsSeparate(es: seq<Event>, resetting: bool, sealed: bool)
    requires Quiet(es)
    ensures Separate(es, resetting, sealed)
    decreases |es|
  {
    if es == [] {
    } else {
      assert Undisturbing(es[0]);
      QuietIsSeparate(es[1..], (resetting || es[0].ResetBegins?) && !es[0].ResetClearsAll?, sealed || es[0].Seal?);
    }
  }

  lemma ResetCloses(max: nat, before: seq<Event>, s: Server, during: seq<Event>, s': Server, c: nat)
    requires Run(max, START, before, s) && Separate(before, false, false) && !s.shutdown && s.reset.NoReset?
    requires Quiet(during) && Run(max, NextReset(s, ResetBegins).value, during, s') && s'.reset.Clearing?
    requires c in s'.accepted
    ensures c in s'.closed
  {
    hide Next, Run, Separate, FateOf, Mutual, Quiet;
    var f := FateOf(c, before, UNBORN);
    RunFated(max, START, before, s, c, UNBORN);
    SeparateSpares(c, before, UNBORN);
    FateOfReset(s, ResetBegins, c, f);
    var f' := FateStep(c, ResetBegins, f);
    RunFated(max, NextReset(s, ResetBegins).value, during, s', c, f');
    QuietIsSeparate(during, f'.resetting, f'.sealed);
    SeparateSpares(c, during, f');
  }

  /** A reset that no add interleaves with closes every wrapper ever accepted and leaves the list of
      all connections empty, whatever purges, closings and stream steps happen meanwhile.  The stream
      list it leaves empty if and only if no element held when it was cleared was taken after that. */
  lemma UndisturbedResetClosesAll(max: nat, before: seq<Event>, s: Server, during: seq<Event>, s': Server)
    requires Run(max, START, before, s) && Separate(before, false, false) && !s.shutdown && s.reset.NoReset?
    requires Quiet(during) && Run(max, NextReset(s, ResetBegins).value, during, s') && s'.reset.Clearing?
    ensures var end := NextReset(s', ResetClearsAll).value;
      && end.all == [] && end.accepted == s.accepted && (forall c | c in end.accepted :: c in end.closed)
      && (Represents(end.stream, []) <==> !Watched(during, Watched(before, UNWATCHED)).late)
      && (Back(end.stream).None? <==> Represents(end.stream, []))
  {
    hide Next, Run, Separate, Watched, Mutual, Quiet, Represents;
    QuietRun(max, NextReset(s, ResetBegins).value, during, s', s.accepted);
    forall c | c in s'.accepted
      ensures c in s'.closed
    {
      ResetCloses(max, before, s, during, s', c);
    }
    StreamAfterReset(max, before, s, during, s');
  }

  lemma StreamAfterReset(max: nat, before: seq<Event>, s: Server, during: seq<Event>, s': Server)
    requires Run(max, START, before, s) && s.reset.NoReset?
    requires Run(max, NextReset(s, ResetBegins).value, during, s') && s'.since == s'.stream.nextId
    ensures Represents(s'.stream, []) <==> !Watched(during, Watched(before, UNWATCHED)).late
    ensures Back(s'.stream).None? <==> Represents(s'.stream, [])
  {
    hide Next, Run, Watched, Mutual, Represents;
    var w := Watched(before, UNWATCHED);
    StartIsWatched();
    RunWatched(max, START, before, s, UNWATCHED);
    var begun := NextReset(s, ResetBegins).value;
    WatchOfReset(s, w);
    RunWatched(max, begun, during, s', w);
    assert Elements(s'.stream, s'.since, s'.stream.nextId) == [];
    if Represents(s'.stream, []) {
      InStepLength(s'.stream, s'.since);
    }
  }

  lemma WatchOfReset(s: Server, w: Watch)
    requires WatchOk(s, w) && s.reset.NoReset?
    ensures WatchOk(NextReset(s, ResetBegins).value, w)
  {
    hide Mutual, Elements, InStep;
  }

  lemma {:induction false} RunAppends(max: nat, s: Server, es: seq<Event>, s': Server, e: Event, s'': Server)
    requires Run(max, s, es, s') && Next(max, s', e) == Some(s'')
    ensures Run(max, s, es + [e], s'')
    decreases |es|
  {
    hide Next;
    hide Mutual;
    if es == [] {
      assert ([e])[1..] == [] && es + [e] == [e];
      assert Run(max, s'', [], s'');
    } else {
      RunAppends(max, Next(max, s, es[0]).value, es[1..], s', e, s'');
      assert (es + [e])[1..] == es[1..] + [e];
    }
  }

  /** A listener between its two list writes, as in every server that has just accepted its first client. */
  lemma BetweenTheLists(max: nat, conn: nat) returns (es: seq<Event>, s: Server)
    requires max > 0
    ensures Run(max, START, es, s)
    ensures s == PutStream(START, conn).(listener := ToAll(conn)) && ResetBegins !in es
  {
    hide Run;
    var s1 := START.(listener := Checking);
    var s2 := START.(listener := Shaking);
    var s3 := START.(listener := ToStream(conn));
    s := PutStream(s3, conn).(listener := ToAll(conn));
    RunOfNothing(max, START);
    RunAppends(max, START, [], START, Accept, s1);
    es := [] + [Accept];
    RunAppends(max, START, es, s1, Check, s2);
    es := es + [Check];
    RunAppends(max, START, es, s2, Wrapped(conn), s3);
    es := es + [Wrapped(conn)];
    RunAppends(max, START, es, s3, ListenerToStream, s);
    es := es + [ListenerToStream];
  }

  lemma RunOfNothing(max: nat, s: Server)
    ensures Run(max, s, [], s)
  {
  }

  /** And such adds happen: the listener lists its first client while a reset is under way. */
  lemma LateAddHappens(max: nat, conn: nat) returns (es: seq<Event>, s: Server)
    requires max > 0
    ensures Run(max, START, es, s)
    ensures s.accepted == {conn} && s.closed == {} && s.all == [] && !s.shutdown
  {
    hide Run, NextStream, NextAdder, PushBack, Clear, Mutual;
    es, s := BetweenTheLists(max, conn);
    var s5 := s.(reset := Closing([]));
    RunAppends(max, START, es, s, ResetBegins, s5);
    es := es + [ResetBegins];
    var s6 := s5.(reset := Clearing, stream := Clear(s5.stream), since := s5.stream.nextId);
    RunAppends(max, START, es, s5, ResetClearsStream, s6);
    es := es + [ResetClearsStream];
    var s7 := PutAll(s6, conn).(listener := Accepting);
    RunAppends(max, START, es, s6, ListenerToAll, s7);
    es := es + [ListenerToAll];
    s := s7.(reset := NoReset, all := []);
    RunAppends(max, START, es, s7, ResetClearsAll, s);
    es := es + [ResetClearsAll];
  }

  lemma OneListed(conn: nat)
    ensures var l := PushBack(NewList(1), conn);
      && Represents(l, [1]) && Back(l) == Some(1) && l.value == map[1 := conn]
      && Remove(Clear(l), 1).len == -1 && Back(Remove(Clear(l), 1)) == Some(ROOT)
  {
    var l := NewList(1);
    PushBackElements(l, 1, conn);
    PushBackKeepsStep(l, 1, conn);
    LateRemovalShows(PushBack(l, conn), [1], 0);
  }

  lemma TakenLate(max: nat, s: Server, conn: nat) returns (during: seq<Event>, s': Server)
    requires s.stream == PushBack(NewList(1), conn) && s.all == [conn] && s.streaming == Held(1)
    requires s.reset.NoReset? && !s.shutdown
    ensures Quiet(during) && Run(max, NextReset(s, ResetBegins).value, during, s') && s'.reset.Clearing?
    ensures s'.stream.len == -1 && Back(s'.stream) == Some(ROOT)
  {
    hide Run, NextAdder, NextListener, PushBack, Clear, Remove, Mutual, Represents, Back;
    OneListed(conn);
    assert [conn][1..] == [];
    var begun := NextReset(s, ResetBegins).value;
    RunOfNothing(max, begun);
    var s1 := begun.(reset := Closing([]), closed := s.closed + {conn});
    RunAppends(max, begun, [], begun, ResetClosesNext, s1);
    during := [] + [ResetClosesNext];
    var s2 := s1.(reset := Clearing, stream := Clear(s.stream), since := s.stream.nextId);
    RunAppends(max, begun, during, s1, ResetClearsStream, s2);
    during := during + [ResetClearsStream];
    ClearKeepsValues(s.stream);
    s' := s2.(stream := Remove(s2.stream, 1), streaming := InFlight(conn));
    RunAppends(max, begun, during, s2, StreamTakes, s');
    during := during + [StreamTakes];
  }

  /** One wrapper is enough for an undisturbed reset to leave the stream list out of step: the
      goroutine looks it up, the reset clears the list, and only then is it taken. */
  lemma LateTakeUnsettlesTheList(max: nat, conn: nat)
    returns (before: seq<Event>, s: Server, during: seq<Event>, s': Server)
    requires max > 0
    ensures Run(max, START, before, s) && Separate(before, false, false) && !s.shutdown && s.reset.NoReset?
    ensures Quiet(during) && Run(max, NextReset(s, ResetBegins).value, during, s') && s'.reset.Clearing?
    ensures s'.stream.len == -1 && Back(s'.stream) == Some(ROOT)
  {
    hide Run, NextAdder, PushBack, Clear, Remove, Mutual, Represents, Back, Separate;
    before, s := BetweenTheLists(max, conn);
    var s1 := PutAll(s, conn).(listener := Accepting);
    RunAppends(max, START, before, s, ListenerToAll, s1);
    before := before + [ListenerToAll];
    var s2 := s1.(streaming := Looking, streamInit := true);
    RunAppends(max, START, before, s1, StreamBegins, s2);
    before := before + [StreamBegins];
    OneListed(conn);
    s := s2.(streaming := Held(1));
    RunAppends(max, START, before, s2, StreamLooks, s);
    before := before + [StreamLooks];
    WithoutResets(before, false);
    during, s' := TakenLate(max, s, conn);
  }

  // ---- the connection cap ----

  ghost predicate Capped(max: nat, s: Server) {
    && |s.all| <= max && s.adders == map[]
    && (s.listener.Shaking? || s.listener.ToStream? || s.listener.ToAll? ==> |s.all| < max)
  }

  lemma CappedStays(max: nat, s: Server, e: Event)
    requires Capped(max, s) && Next(max, s, e).Some? && !e.AdderBegins?
    ensures Capped(max, Next(max, s, e).value)
  {
    hide Mutual, PushBack, Remove, Clear, NextStream;
    if OfStream(e) {
      StreamLeavesTheRest(s, e);
    }
  }

  predicate ListenerOnly(es: seq<Event>) {
    forall i | 0 <= i < |es| :: !es[i].AdderBegins?
  }

  lemma {:induction false} RunStaysCapped(max: nat, s: Server, es: seq<Event>, s': Server)
    requires Capped(max, s) && ListenerOnly(es) && Run(max, s, es, s')
    ensures Capped(max, s')
    decreases |es|
  {
    hide Next;
    if es == [] {
    } else {
      assert !es[0].AdderBegins?;
      CappedStays(max, s, es[0]);
      RunStaysCapped(max, Next(max, s, es[0]).value, es[1..], s');
    }
  }

  /** With the listener as the only adder the count of active connections never exceeds the
      maximum, although the test is for equality and the add comes long after it. */
  lemma CapHolds(max: nat, es: seq<Event>, s: Server)
    requires Run(max, START, es, s) && ListenerOnly(es)
    ensures |s.all| <= max
  {
    hide Next, Run;
    RunStaysCapped(max, START, es, s);
  }

  lemma StoppedStays(max: nat, s: Server, e: Event)
    requires s.listener.Stopped? && s.adders == map[] && !e.AdderBegins? && Next(max, s, e).Some?
    ensures var s' := Next(max, s, e).value;
      s'.listener.Stopped? && s'.adders == map[] && |s'.all| <= |s.all| && s'.accepted == s.accepted
  {
    hide Mutual, PushBack, Remove, Clear, NextStream;
    if OfStream(e) {
      StreamLeavesTheRest(s, e);
    }
  }

  /** Once the listener has stopped, purges free places that nobody takes any more. */
  lemma {:induction false} StoppedForGood(max: nat, s: Server, es: seq<Event>, s': Server)
    requires s.listener.Stopped? && s.adders == map[] && ListenerOnly(es) && Run(max, s, es, s')
    ensures s'.listener.Stopped? && |s'.all| <= |s.all| && s'.accepted == s.accepted
    decreases |es|
  {
    hide Next;
    if es == [] {
    } else {
      assert !es[0].AdderBegins?;
      StoppedStays(max, s, es[0]);
      StoppedForGood(max, Next(max, s, es[0]).value, es[1..], s');
    }
  }

  // ---- the server goes on ----

  /** Some test of the cap in this run found it reached. */
  ghost predicate MetCap(max: nat, s: Server, es: seq<Event>)
    decreases |es|
  {
    es != [] && Next(max, s, es[0]).Some?
    && ((es[0].Check? && |s.all| == max) || MetCap(max, Next(max, s, es[0]).value, es[1..]))
  }

  lemma ListenerStops(max: nat, s: Server, e: Event)
    requires Next(max, s, e).Some?
    ensures Next(max, s, e).value.listener.Stopped?
      <==> s.listener.Stopped? || e.ListenerFails? || (e.Check? && |s.all| == max)
  {
    hide Mutual, PushBack, Remove, Clear, NextStream;
    if OfStream(e) {
      StreamLeavesTheRest(s, e);
    }
  }

  lemma {:induction false} RunStopsListener(max: nat, s: Server, es: seq<Event>, s': Server)
    requires Run(max, s, es, s')
    ensures s'.listener.Stopped? <==> s.listener.Stopped? || ListenerFails in es || MetCap(max, s, es)
    decreases |es|
  {
    hide Next;
    if es == [] {
    } else {
      ListenerStops(max, s, es[0]);
      RunStopsListener(max, Next(max, s, es[0]).value, es[1..], s');
      assert es == [es[0]] + es[1..];
    }
  }

  /** In every run the listener has stopped if and only if it met the cap or its accept failed; no
      failed handshake stops it. */
  lemma ListenerStopsIff(max: nat, es: seq<Event>, s: Server)
    requires Run(max, START, es, s)
    ensures s.listener.Stopped? <==> ListenerFails in es || MetCap(max, START, es)
  {
    hide Run, MetCap, Mutual;
    RunStopsListener(max, START, es, s);
  }

  /** Below the cap and before the shutdown a listener can serve any connection, put its wrapper on both
      lists and accept again; and so it can after a failed handshake. */
  lemma ListenerServes(max: nat, s: Server, conn: nat) returns (es: seq<Event>, s': Server)
    requires s.listener.Accepting? && !s.shutdown && |s.all| != max
    ensures Run(max, s, [Accept, Check, HandshakeFails], s)
    ensures Run(max, s, es, s') && s' == PutAll(PutStream(s, conn), conn)
  {
    hide Run, NextStream, NextAdder, NextReset, PushBack, Mutual;
    var s1 := s.(listener := Checking);
    var s2 := s.(listener := Shaking);
    var s3 := s.(listener := ToStream(conn));
    var s4 := PutStream(s3, conn).(listener := ToAll(conn));
    s' := PutAll(PutStream(s, conn), conn);
    RunOfNothing(max, s);
    RunAppends(max, s, [], s, Accept, s1);
    RunAppends(max, s, [] + [Accept], s1, Check, s2);
    es := [] + [Accept] + [Check];
    RunAppends(max, s, es, s2, HandshakeFails, s);
    assert es + [HandshakeFails] == [Accept, Check, HandshakeFails];
    RunAppends(max, s, es, s2, Wrapped(conn), s3);
    es := es + [Wrapped(conn)];
    RunAppends(max, s, es, s3, ListenerToStream, s4);
    es := es + [ListenerToStream];
    RunAppends(max, s, es, s4, ListenerToAll, s');
    es := es + [ListenerToAll];
  }

  /** And anyone else can add a wrapper before the shutdown, cap or no cap. */
  lemma AdderServes(max: nat, s: Server, a: nat, conn: nat) returns (es: seq<Event>, s': Server)
    requires a !in s.adders && !s.shutdown
    ensures Run(max, s, es, s')
    ensures s' == PutAll(PutStream(s, conn), conn).(adders := s.adders[a := AdderDone])
  {
    hide Run, NextStream, NextListener, NextReset, PushBack, Mutual;
    var s1 := s.(adders := s.adders[a := AdderToStream(conn)]);
    var s2 := PutStream(s, conn).(adders := s.adders[a := AdderToAll(conn)]);
    s' := PutAll(PutStream(s, conn), conn).(adders := s.adders[a := AdderDone]);
    assert s1.adders[a := AdderToAll(conn)] == s.adders[a := AdderToAll(conn)];
    assert s2.adders[a := AdderDone] == s.adders[a := AdderDone];
    RunOfNothing(max, s);
    RunAppends(max, s, [], s, AdderBegins(a, conn), s1);
    es := [] + [AdderBegins(a, conn)];
    RunAppends(max, s, es, s1, AdderWritesStream(a), s2);
    es := es + [AdderWritesStream(a)];
    RunAppends(max, s, es, s2, AdderWritesAll(a), s');
    es := es + [AdderWritesAll(a)];
  }

  /** Every wrapper in `all`, and every one on its way there, has been put on the stream list first. */
  ghost predicate StreamedFirst(s: Server) {
    && (forall c | c in s.accepted :: c in s.added)
    && (s.listener.ToAll? ==> s.listener.conn in s.added)
    && (forall a | a in s.adders && s.adders[a].AdderToAll? :: s.adders[a].conn in s.added)
  }

  lemma StreamedFirstStays(max: nat, s: Server, e: Event)
    requires StreamedFirst(s) && Next(max, s, e).Some?
    ensures StreamedFirst(Next(max, s, e).value)
  {
    hide Mutual, PushBack, Remove, Clear;
  }

  lemma {:induction false} RunStreamsFirst(max: nat, s: Server, es: seq<Event>, s': Server)
    requires StreamedFirst(s) && Run(max, s, es, s')
    ensures StreamedFirst(s')
    decreases |es|
  {
    hide StreamedFirst, Next;
    if es == [] {
    } else {
      StreamedFirstStays(max, s, es[0]);
      RunStreamsFirst(max, Next(max, s, es[0]).value, es[1..], s');
    }
  }

  /** In every run each wrapper that was ever accepted was added to the stream. */
  lemma AcceptedWasStreamed(max: nat, es: seq<Event>, s: Server)
    requires Run(max, START, es, s)
    ensures forall c | c in s.accepted :: c in s.added
  {
    hide Next, Run, Mutual;
    RunStreamsFirst(max, START, es, s);
  }

  function Reversed(conns: seq<nat>): seq<nat> {
    if conns == [] then [] else [conns[|conns| - 1]] + Reversed(conns[..|conns| - 1])
  }

  lemma TakesTheNewest(max: nat, s: Server) returns (es: seq<Event>, s': Server)
    requires s.streaming.Looking? && InStep(s.stream, s.since) && ConnsSince(s.stream, s.since) != []
    ensures var conns := ConnsSince(s.stream, s.since);
      && Run(max, s, es, s') && s'.streaming.Looking? && s'.since == s.since
      && InStep(s'.stream, s.since) && ConnsSince(s'.stream, s.since) == conns[..|conns| - 1]
      && s'.delivered == s.delivered + [conns[|conns| - 1]]
  {
    hide Run, Mutual, InStep, ConnsSince, Remove, Back, NextListener, NextAdder, NextReset;
    TakeLast(s.stream, s.since);
    var node := Back(s.stream).value;
    var conn := s.stream.value[node];
    var s1 := s.(streaming := Held(node));
    var s2 := s.(stream := Remove(s.stream, node), streaming := InFlight(conn));
    s' := s2.(streaming := Looking, delivered := s.delivered + [conn]);
    RunOfNothing(max, s);
    RunAppends(max, s, [], s, StreamLooks, s1);
    RunAppends(max, s, [] + [StreamLooks], s1, StreamTakes, s2);
    es := [] + [StreamLooks] + [StreamTakes];
    RunAppends(max, s, es, s2, StreamDelivers, s');
    es := es + [StreamDelivers];
  }

  lemma {:induction false} RunJoins(max: nat, s: Server, es: seq<Event>, s': Server, es': seq<Event>, s'': Server)
    requires Run(max, s, es, s') && Run(max, s', es', s'')
    ensures Run(max, s, es + es', s'')
    decreases |es|
  {
    hide Next, Mutual;
    if es == [] {
      assert es + es' == es';
    } else {
      RunJoins(max, Next(max, s, es[0]).value, es[1..], s', es', s'');
      assert (es + es')[1..] == es[1..] + es' && (es + es')[0] == es[0];
    }
  }

  /** A stream list that is in step can be delivered to its end, the newest wrapper first. */
  lemma {:induction false} StreamDrains(max: nat, s: Server) returns (es: seq<Event>, s': Server)
    requires s.streaming.Looking? && InStep(s.stream, s.since)
    ensures Run(max, s, es, s') && ConnsSince(s'.stream, s'.since) == []
    ensures s'.delivered == s.delivered + Reversed(ConnsSince(s.stream, s.since))
    decreases |ConnsSince(s.stream, s.since)|
  {
    hide Run, Mutual, InStep, ConnsSince, Elements, Conns;
    if ConnsSince(s.stream, s.since) == [] {
      es, s' := [], s;
      RunOfNothing(max, s);
    } else {
      var conns := ConnsSince(s.stream, s.since);
      var es1, s1 := TakesTheNewest(max, s);
      var es2;
      es2, s' := StreamDrains(max, s1);
      RunJoins(max, s, es1, s1, es2, s');
      es := es1 + es2;
      var last, before := conns[|conns| - 1], Reversed(conns[..|conns| - 1]);
      assert (s.delivered + [last]) + before == s.delivered + ([last] + before);
    }
  }

  /** The goroutine is begun at most once, before the shutdown, and ends only after it. */
  lemma {:induction false} StreamGoroutine(max: nat, s: Server, es: seq<Event>, s': Server)
    requires Run(max, s, es, s')
    requires s.streaming.StreamOff? && s.streamInit ==> s.shutdown
    ensures s'.streaming.StreamOff? && s'.streamInit ==> s'.shutdown
    ensures s.streamInit ==> StreamBegins !in es
    ensures s.shutdown ==> StreamBegins !in es
    ensures s'.streamInit <==> s.streamInit || StreamBegins in es
    decreases |es|
  {
    hide Mutual;
    if es == [] {
    } else {
      StreamGoroutineStep(max, s, es[0]);
      hide Next;
      StreamGoroutine(max, Next(max, s, es[0]).value, es[1..], s');
      assert es == [es[0]] + es[1..];
    }
  }

  lemma StreamGoroutineStep(max: nat, s: Server, e: Event)
    requires Next(max, s, e).Some?
    requires s.streaming.StreamOff? && s.streamInit ==> s.shutdown
    ensures var s' := Next(max, s, e).value;
      && (s'.streaming.StreamOff? && s'.streamInit ==> s'.shutdown)
      && (s.shutdown ==> s'.shutdown) && (s.streamInit || s.shutdown ==> !e.StreamBegins?)
      && (s'.streamInit <==> s.streamInit || e.StreamBegins?)
  {
    hide Mutual, PushBack, Remove, Clear, Back;
  }

  /** In every run: after it has begun the goroutine is off only when the server has shut down. */
  lemma StreamRunsUntilShutdown(max: nat, es: seq<Event>, s: Server)
    requires Run(max, START, es, s)
    ensures s.streaming.StreamOff? && StreamBegins in es ==> s.shutdown
    ensures forall i, j | 0 <= i < j < |es| && es[i].StreamBegins? :: !es[j].StreamBegins?
  {
    hide Run, Next, Mutual;
    StreamGoroutine(max, START, es, s);
    BegunOnce(max, START, es, s);
  }

  lemma {:induction false} BegunOnce(max: nat, s: Server, es: seq<Event>, s': Server)
    requires Run(max, s, es, s')
    requires s.streaming.StreamOff? && s.streamInit ==> s.shutdown
    ensures forall i, j | 0 <= i < j < |es| && es[i].StreamBegins? :: !es[j].StreamBegins?
    decreases |es|
  {
    hide Next, Mutual;
    if es == [] {
    } else {
      var s1 := Next(max, s, es[0]).value;
      StreamGoroutineStep(max, s, es[0]);
      BegunOnce(max, s1, es[1..], s');
      StreamGoroutine(max, s1, es[1..], s');
      forall i, j | 0 <= i < j < |es| && es[i].StreamBegins?
        ensures !es[j].StreamBegins?
      {
        assert es[j] == es[1..][j - 1];
        if i > 0 {
          assert es[i] == es[1..][i - 1];
        }
      }
    }
  }

  /** After a purge exactly the open wrappers are listed, and there is room if there was a closed one. */
  lemma PurgeMakesRoom(max: nat, s: Server)
    ensures var s' := Next(max, s, Purge).value;
      && (forall c :: c in s'.all <==> c in s.all && c !in s.closed)
      && (|s'.all| < |s.all| <==> exists c :: c in s.all && c in s.closed)
  {
    KeepOpenShrinksIff(s.all, s.closed);
  }
}
