/** What makes the parts of a wrapper go on, and what alone makes them stop. */
module Progress {
  import opened Bytes
  import opened Frames
  import opened StreamDecoder
  import opened Loops
  import opened Lifecycle

  // ---- why the loops stop ----

  predicate ReaderStopped(r: Reader) {
    r.pc.ReaderLeaving? || r.pc.ReaderGone?
  }

  /** A reader stops at the token, at a read error, at a route that panics, or if the wrapper is closed
      when it starts. */
  predicate StopsReader(e: Event, closed: bool) {
    && e.OfReader?
    && (e.r.TakeReaderToken? || e.r == FinishRead(Failed) || e.r.RoutePanics? || (e.r.StartReader? && closed))
  }

  predicate ReaderEnded(es: seq<Event>, closed: bool)
    decreases |es|
  {
    es != [] && (StopsReader(es[0], closed) || ReaderEnded(es[1..], closed || es[0].CloseChannel?))
  }

  predicate OfCall(e: Event) {
    e.Acquire? || e.Check? || e.Spawn? || e.CloseChannel? || e.CloseConn? || e.Release?
  }

  /** Calls leave the loops alone, and only one statement of theirs closes the channel. */
  lemma CallEffect(c: Config, w: Wrapper, e: Event)
    requires OfCall(e) && NextCall(c, w, e).Some?
    ensures var w' := NextCall(c, w, e).value;
      && w'.reader == w.reader && w'.writer == w.writer && w'.watching == w.watching
      && w'.readerChan == w.readerChan && w'.readerSent == w.readerSent
      && (w'.closed <==> w.closed || e.CloseChannel?)
  {
  }

  lemma ReaderStepStops(c: Config, w: Wrapper, e: Event)
    requires Next(c, w, e).Some?
    ensures var w' := Next(c, w, e).value;
      && (ReaderStopped(w'.reader) <==> ReaderStopped(w.reader) || StopsReader(e, w.closed))
      && (w'.closed <==> w.closed || e.CloseChannel?)
  {
    hide NextWriter, NextCall;
    if OfCall(e) {
      CallEffect(c, w, e);
    }
  }

  lemma {:induction false} ReaderStops(c: Config, w: Wrapper, es: seq<Event>, w': Wrapper)
    requires Run(c, w, es, w')
    ensures ReaderStopped(w'.reader) <==> ReaderStopped(w.reader) || ReaderEnded(es, w.closed)
    decreases |es|
  {
    hide Next, StopsReader;
    if es == [] {
    } else {
      ReaderStepStops(c, w, es[0]);
      ReaderStops(c, Next(c, w, es[0]).value, es[1..], w');
    }
  }

  /** In every run the reader has stopped if and only if one of its four reasons has come up. */
  lemma ReaderStopsIff(c: Config, es: seq<Event>, w: Wrapper)
    requires Run(c, FRESH, es, w)
    ensures ReaderStopped(w.reader) <==> ReaderEnded(es, false)
  {
    hide Run;
    ReaderStops(c, FRESH, es, w);
  }

  predicate WriterStopped(pc: WriterPc) {
    pc.WriterLeaving? || pc.WriterGone?
  }

  /** How the writer ended, as far as the events alone tell. */
  function WriterEnd(es: seq<Event>, closed: bool): Option<Cause>
    decreases |es|
  {
    if es == [] then None
    else if es[0] == OfWriter(TakeWriterToken) then Some(Shutdown)
    else if es[0] == OfWriter(StartWriter) && closed then Some(NeverRan)
    else WriterEnd(es[1..], closed || es[0].CloseChannel?)
  }

  lemma WriterStepEnds(c: Config, w: Wrapper, e: Event)
    requires Next(c, w, e).Some?
    ensures var p, p' := w.writer.pc, Next(c, w, e).value.writer.pc;
      if WriterStopped(p) then WriterStopped(p') && p'.cause == p.cause && !(e.OfWriter? && !e.w.Offer?)
      else if e == OfWriter(TakeWriterToken) then p' == WriterLeaving(Shutdown)
      else if e == OfWriter(StartWriter) && w.closed then p' == WriterLeaving(NeverRan)
      else WriterStopped(p') ==> p'.cause == Failure
  {
    hide NextReader, FrameOf, NextCall;
    if OfCall(e) {
      CallEffect(c, w, e);
    }
  }

  lemma {:induction false} WriterEnds(c: Config, w: Wrapper, es: seq<Event>, w': Wrapper)
    requires Run(c, w, es, w')
    ensures var p' := w'.writer.pc;
      if WriterStopped(w.writer.pc) then
        WriterStopped(p') && p'.cause == w.writer.pc.cause && WriterEnd(es, w.closed) == None
      else match WriterEnd(es, w.closed)
        case Some(cause) => WriterStopped(p') && p'.cause == cause
        case None => WriterStopped(p') ==> p'.cause == Failure
    decreases |es|
  {
    hide Next;
    if es == [] {
    } else {
      WriterStepEnds(c, w, es[0]);
      ReaderStepStops(c, w, es[0]);
      WriterEnds(c, Next(c, w, es[0]).value, es[1..], w');
    }
  }

  /** In every run the writer has left by the shutdown token if and only if it took one, and never ran
      if and only if the wrapper was closed when it started; for any other reason a put failed. */
  lemma WriterStopsIff(c: Config, es: seq<Event>, w: Wrapper)
    requires Run(c, FRESH, es, w)
    ensures var p := w.writer.pc;
      && (WriterStopped(p) && p.cause == Shutdown <==> WriterEnd(es, false) == Some(Shutdown))
      && (WriterStopped(p) && p.cause == NeverRan <==> WriterEnd(es, false) == Some(NeverRan))
      && (WriterStopped(p) && p.cause == Failure ==> Lost(p) && |w.writer.frames| < |w.writer.taken|)
  {
    hide Run, Next;
    WriterEnds(c, FRESH, es, w);
    WriterConserves(c, es, w);
  }

  /** Loops that start on a closed wrapper do nothing. */
  lemma {:induction false} ClosedBeforeStart(c: Config, w: Wrapper, es: seq<Event>, w': Wrapper)
    requires w.closed && Run(c, w, es, w')
    ensures w.reader.pc.ReaderStarting? || ReaderStopped(w.reader) ==>
              w'.reader.decoded == w.reader.decoded && (w'.reader.pc.ReaderStarting? || ReaderStopped(w'.reader))
    ensures w.writer.pc.WriterStarting? || WriterStopped(w.writer.pc) ==>
              w'.writer.taken == w.writer.taken && w'.writer.wire == w.writer.wire
    decreases |es|
  {
    if es == [] {
    } else {
      ClosedStep(c, w, es[0]);
      hide Next;
      ClosedBeforeStart(c, Next(c, w, es[0]).value, es[1..], w');
    }
  }

  lemma ClosedStep(c: Config, w: Wrapper, e: Event)
    requires w.closed && Next(c, w, e).Some?
    ensures var w' := Next(c, w, e).value;
      && w'.closed
      && (w.reader.pc.ReaderStarting? || ReaderStopped(w.reader) ==>
            w'.reader.decoded == w.reader.decoded && (w'.reader.pc.ReaderStarting? || ReaderStopped(w'.reader)))
      && (w.writer.pc.WriterStarting? || WriterStopped(w.writer.pc) ==>
            && w'.writer.taken == w.writer.taken && w'.writer.wire == w.writer.wire
            && (w'.writer.pc.WriterStarting? || WriterStopped(w'.writer.pc)))
  {
    hide FrameOf, NextCall;
    if OfCall(e) {
      CallEffect(c, w, e);
    }
  }

  /** In every run, a loop that has not started when the wrapper is closed never decodes, dispatches,
      takes or writes anything. */
  lemma ClosedLoopsDoNothing(c: Config, before: seq<Event>, w: Wrapper, after: seq<Event>, w': Wrapper)
    requires Run(c, FRESH, before, w) && w.closed && Run(c, w, after, w')
    ensures w.reader.pc.ReaderStarting? ==> w'.reader.decoded == []
    ensures w.writer.pc.WriterStarting? ==> w'.writer.taken == [] && w'.writer.wire == []
  {
    hide Run, Next;
    FreshIsOk(c);
    RunKeeps(c, FRESH, before, w);
    ClosedBeforeStart(c, w, after, w');
  }

  // ---- what the reader's token still lets through ----

  predicate Dispatches(e: Event) {
    e == OfReader(Dispatch) || e == OfReader(RoutePanics)
  }

  /** The dispatches after the reader's token was sent, which is what the first signal does. */
  function LateDispatches(es: seq<Event>, sent: bool): nat
    decreases |es|
  {
    if es == [] then 0
    else (if sent && Dispatches(es[0]) then 1 else 0) + LateDispatches(es[1..], sent || es[0].Signal?)
  }

  lemma LateStep(c: Config, w: Wrapper, e: Event)
    requires Inv(c, w) && Next(c, w, e).Some?
    ensures var w' := Next(c, w, e).value;
      && w'.reader.late == w.reader.late + (if w.readerSent > 0 && Dispatches(e) then 1 else 0)
      && (w'.readerSent > 0 <==> w.readerSent > 0 || e.Signal?)
  {
    hide NextWriter, NextCall, ReaderOk, WriterOk, ClosingOk, Target;
    if OfCall(e) {
      CallEffect(c, w, e);
    }
  }

  lemma {:induction false} LateIs(c: Config, w: Wrapper, es: seq<Event>, w': Wrapper)
    requires Inv(c, w) && Run(c, w, es, w')
    ensures w'.reader.late == w.reader.late + LateDispatches(es, w.readerSent > 0)
    decreases |es|
  {
    hide Inv, Next, Dispatches;
    if es == [] {
    } else {
      LateStep(c, w, es[0]);
      Stays(c, w, es[0]);
      LateIs(c, Next(c, w, es[0]).value, es[1..], w');
    }
  }

  /** In every run at most one message is dispatched after the reader's token was sent. */
  lemma AtMostOneLateDispatch(c: Config, es: seq<Event>, w: Wrapper)
    requires Run(c, FRESH, es, w)
    ensures LateDispatches(es, false) <= 1
  {
    hide Run, Next;
    FreshIsOk(c);
    LateIs(c, FRESH, es, w);
    DispatchConserves(c, es, w, ToReceiver);
  }

  // ---- closing goes on ----

  lemma {:induction false} RunJoins(c: Config, w: Wrapper, es: seq<Event>, w': Wrapper, es': seq<Event>, w'': Wrapper)
    requires Run(c, w, es, w') && Run(c, w', es', w'')
    ensures Run(c, w, es + es', w'')
    decreases |es|
  {
    hide Next;
    if es == [] {
      assert es + es' == es';
    } else {
      RunJoins(c, Next(c, w, es[0]).value, es[1..], w', es', w'');
      assert (es + es')[1..] == es[1..] + es' && (es + es')[0] == es[0];
    }
  }

  /** The statement that a caller inside the lock executes next. */
  function Statement(id: nat, pc: CallPc): Event
    requires Critical(pc)
  {
    match pc
    case Locked => Check(id)
    case Spawning => Spawn(id)
    case ClosingChannel => CloseChannel(id)
    case ClosingConn => CloseConn(id)
    case Releasing => Release(id)
  }

  /** How many statements there are to go, at most. */
  function ToGo(websocket: bool, pc: CallPc): nat {
    match pc
    case Waiting => 6
    case Locked => 5
    case Spawning => 4
    case ClosingChannel => if websocket then 2 else 3
    case ClosingConn => if websocket then 3 else 2
    case Releasing => 1
    case Returned => 0
  }

  /** Whoever holds the mutex can always execute its next statement, and comes nearer to the end. */
  lemma HolderGoesOn(c: Config, w: Wrapper, id: nat)
    requires Inv(c, w) && w.mutex == Some(id)
    ensures id in w.calls && Critical(w.calls[id].pc)
    ensures var call, next := w.calls[id], Next(c, w, Statement(id, w.calls[id].pc));
      next.Some? && var w' := next.value;
        && id in w'.calls && w'.calls[id].kind == call.kind && w'.calls == w.calls[id := w'.calls[id]]
        && ToGo(c.websocket, w'.calls[id].pc) < ToGo(c.websocket, call.pc)
        && w'.mutex == (if w'.calls[id].pc.Returned? then None else w.mutex)
        && w'.reader == w.reader && w'.writer == w.writer
        && (if w.first.Some? then w'.first == w.first else w'.first.Some? ==> w'.first == Some(call.kind))
  {
    hide ReaderOk, WriterOk, SignalsOk, NextReader, NextWriter, NextSignal, Enter, Done, Settled;
  }

  lemma {:induction false} HolderFinishes(c: Config, w: Wrapper, id: nat) returns (es: seq<Event>, w': Wrapper)
    requires Inv(c, w) && w.mutex == Some(id)
    ensures id in w.calls && Run(c, w, es, w') && Inv(c, w') && w'.mutex.None?
    ensures w'.calls == w.calls[id := Call(w.calls[id].kind, Returned)]
    ensures w'.first == if w.first.Some? then w.first else Some(w.calls[id].kind)
    ensures w'.reader == w.reader && w'.writer == w.writer
    decreases ToGo(c.websocket, if id in w.calls then w.calls[id].pc else Returned)
  {
    hide Inv, Next, Statement, ToGo;
    HolderGoesOn(c, w, id);
    var e := Statement(id, w.calls[id].pc);
    var w1 := Next(c, w, e).value;
    Stays(c, w, e);
    if w1.mutex.None? {
      assert Run(c, w1, [], w1);
      RunsOn(c, w, e, w1, [], w1);
      ReturnedMeansClosed(c, w1, id);
      es, w' := [e] + [], w1;
    } else {
      es, w' := HolderFinishes(c, w1, id);
      RunsOn(c, w, e, w1, es, w');
      es := [e] + es;
    }
  }

  lemma ReturnedMeansClosed(c: Config, w: Wrapper, id: nat)
    requires Inv(c, w) && IsAt(w, id, Returned)
    ensures w.first.Some?
  {
    hide ReaderOk, WriterOk, SignalsOk;
  }

  lemma WaitingOrHolding(c: Config, w: Wrapper, id: nat)
    requires Inv(c, w) && id in w.calls
    ensures w.mutex == Some(id) || w.calls[id].pc.Waiting? || (w.calls[id].pc.Returned? && Done(w))
    ensures w.mutex.None? && w.calls[id].pc.Waiting? ==>
              Next(c, w, Acquire(id)) == Some(At(w, id, Locked).(mutex := Some(id)))
    ensures w.mutex.Some? ==> w.mutex.value in w.calls && Critical(w.calls[w.mutex.value].pc)
  {
    hide ReaderOk, WriterOk, SignalsOk;
  }

  /** Every call of `Close` and `softClose`, in whatever state the others are, can be completed, and
      leaves the wrapper closed for good. */
  lemma CallCompletes(c: Config, w: Wrapper, id: nat) returns (es: seq<Event>, w': Wrapper)
    requires Inv(c, w) && id in w.calls
    ensures Run(c, w, es, w') && Inv(c, w') && Done(w') && w'.mutex.None? && w'.calls.Keys == w.calls.Keys
    ensures id in w'.calls && w'.calls[id] == Call(w.calls[id].kind, Returned)
    ensures w.mutex.None? && w.first.None? && w.calls[id].pc.Waiting? ==> w'.first == Some(w.calls[id].kind)
    ensures w'.reader == w.reader && w'.writer == w.writer
  {
    hide Inv, Next, Done;
    WaitingOrHolding(c, w, id);
    es, w' := [], w;
    assert Run(c, w, [], w);
    if w.mutex.Some? {
      es, w' := HolderFinishes(c, w, w.mutex.value);
    }
    if w'.calls[id].pc.Waiting? {
      WaitingOrHolding(c, w', id);
      var w1 := At(w', id, Locked).(mutex := Some(id));
      Stays(c, w', Acquire(id));
      var es1, w2 := HolderFinishes(c, w1, id);
      RunsOn(c, w', Acquire(id), w1, es1, w2);
      RunJoins(c, w, es, w', [Acquire(id)] + es1, w2);
      es, w' := es + ([Acquire(id)] + es1), w2;
    }
    WaitingOrHolding(c, w', id);
  }

  /** A call by someone new. */
  predicate Calls(e: Event, id: nat, kind: Kind) {
    e == Begin(id, kind) || ((e == ReaderCloses(id) || e == WriterCloses(id) || e == WatcherCloses(id)) && kind.Hard?)
  }

  /** Who can call: any user with anything but the `softClose` of a websocket, a loop that has
      stopped, and the watcher. */
  predicate MayCall(c: Config, w: Wrapper, e: Event, id: nat, kind: Kind) {
    && Calls(e, id, kind) && id !in w.calls
    && (c.websocket ==> kind.Hard?)
    && (e.ReaderCloses? ==> w.reader.pc.ReaderLeaving?)
    && (e.WriterCloses? ==> w.writer.pc.WriterLeaving?)
    && (e.WatcherCloses? ==> w.watching)
  }

  lemma CallBegins(c: Config, w: Wrapper, e: Event, id: nat, kind: Kind)
    requires MayCall(c, w, e, id, kind)
    ensures Next(c, w, e).Some? && Next(c, w, e).value.calls == w.calls[id := Call(kind, Waiting)]
    ensures Next(c, w, e).value.mutex == w.mutex && Next(c, w, e).value.first == w.first
  {
  }

  /** In every reachable state whoever may call can call, be it a user, a loop that has stopped or the
      watcher, and the call can be completed, the mutex being free after it; then the wrapper is closed
      for good, and if nobody else was closing it, by a call of this kind. */
  lemma ClosingIsAlwaysPossible(c: Config, before: seq<Event>, w: Wrapper, e: Event, id: nat, kind: Kind)
    returns (es: seq<Event>, w': Wrapper)
    requires Run(c, FRESH, before, w) && MayCall(c, w, e, id, kind)
    ensures Run(c, w, [e] + es, w') && Done(w') && w'.mutex.None?
    ensures id in w'.calls && w'.calls[id] == Call(kind, Returned)
    ensures w.mutex.None? && w.first.None? ==> w'.first == Some(kind)
  {
    hide Inv, Next, Run, Done;
    FreshIsOk(c);
    RunKeeps(c, FRESH, before, w);
    CallBegins(c, w, e, id, kind);
    Stays(c, w, e);
    es, w' := CallCompletes(c, Next(c, w, e).value, id);
    RunsOn(c, w, e, Next(c, w, e).value, es, w');
  }

  ghost predicate AllHard(w: Wrapper) {
    (forall i | i in w.calls :: w.calls[i].kind.Hard?) && w.first != Some(Soft)
  }

  lemma HardStays(c: Config, w: Wrapper, e: Event)
    requires AllHard(w) && Next(c, w, e).Some? && !(e.Begin? && e.kind.Soft?)
    ensures AllHard(Next(c, w, e).value)
  {
    hide NextReader, NextWriter;
  }

  lemma {:induction false} RunHard(c: Config, w: Wrapper, es: seq<Event>, w': Wrapper)
    requires AllHard(w) && Run(c, w, es, w')
    requires forall i | 0 <= i < |es| :: !(es[i].Begin? && es[i].kind.Soft?)
    ensures AllHard(w')
    decreases |es|
  {
    hide AllHard, Next;
    if es == [] {
    } else {
      assert !(es[0].Begin? && es[0].kind.Soft?);
      HardStays(c, w, es[0]);
      RunHard(c, Next(c, w, es[0]).value, es[1..], w');
    }
  }

  /** Where nobody calls `softClose`, a wrapper that is closed, by whoever it was, has closed its
      connection too. */
  lemma WithoutSoftCloseTheConnectionIsClosed(c: Config, es: seq<Event>, w: Wrapper)
    requires Run(c, FRESH, es, w) && forall i | 0 <= i < |es| :: !(es[i].Begin? && es[i].kind.Soft?)
    requires w.mutex.None? && w.closed
    ensures w.connCloses == 1
  {
    hide Run, Next;
    RunHard(c, FRESH, es, w);
    ClosesConnIffFirstWasHard(c, es, w);
    TwoKinds(w.first);
  }

  // ---- the writer goes on ----

  /** A writer after one more message went through it whole. */
  function AfterPut(x: Writer, m: Message, nonce: bytes, frame: bytes): Writer {
    x.(pc := WriterSelecting, handed := x.handed + [m], taken := x.taken + [m], nonces := x.nonces + [nonce],
       frames := x.frames + [frame], wire := x.wire + frame, lastNonce := nonce)
  }

  lemma PutsOne(c: Config, w: Wrapper, m: Message, nonce: bytes, frame: bytes) returns (es: seq<Event>)
    requires w.writer.pc.WriterSelecting? && w.writer.buffer == []
    requires FrameOf(c.lib, c.inverse, m, c.keys, nonce) == Some(frame)
    ensures Run(c, w, es, w.(writer := AfterPut(w.writer, m, nonce, frame)))
  {
    hide Run, FrameOf, NextCall, NextReader;
    var x := w.writer;
    var put := w.(writer := x.(pc := Putting(m), handed := x.handed + [m], taken := x.taken + [m]));
    var done := w.(writer := AfterPut(x, m, nonce, frame));
    assert Next(c, put, OfWriter(Put(nonce, |frame|))) == Some(done);
    RunOfNothing(c, done);
    RunsOn(c, put, OfWriter(Put(nonce, |frame|)), done, [], done);
    es := [OfWriter(Put(nonce, |frame|))] + [];
    if c.capacity == 0 {
      assert Next(c, w, OfWriter(Offer(m))) == Some(put);
      RunsOn(c, w, OfWriter(Offer(m)), put, es, done);
      es := [OfWriter(Offer(m))] + es;
    } else {
      var offered := w.(writer := x.(buffer := [m], handed := x.handed + [m]));
      assert x.buffer + [m] == [m] && [m][1..] == [];
      assert Next(c, offered, OfWriter(Take)) == Some(put);
      RunsOn(c, offered, OfWriter(Take), put, es, done);
      es := [OfWriter(Take)] + es;
      assert Next(c, w, OfWriter(Offer(m))) == Some(offered);
      RunsOn(c, w, OfWriter(Offer(m)), offered, es, done);
      es := [OfWriter(Offer(m))] + es;
    }
  }

  lemma RunOfNothing(c: Config, w: Wrapper)
    ensures Run(c, w, [], w)
  {
  }

  function MessagesIn(items: seq<(Message, bytes, bytes)>): seq<Message> {
    if items == [] then [] else [items[0].0] + MessagesIn(items[1..])
  }

  function FramesIn(items: seq<(Message, bytes, bytes)>): seq<bytes> {
    if items == [] then [] else [items[0].2] + FramesIn(items[1..])
  }

  /** Messages with the nonces they are put with and the frames they have. */
  ghost predicate Puttable(c: Config, items: seq<(Message, bytes, bytes)>) {
    forall i | 0 <= i < |items| :: FrameOf(c.lib, c.inverse, items[i].0, c.keys, items[i].1) == Some(items[i].2)
  }

  function AfterAll(x: Writer, items: seq<(Message, bytes, bytes)>): Writer
    decreases |items|
  {
    if items == [] then x else AfterAll(AfterPut(x, items[0].0, items[0].1, items[0].2), items[1..])
  }

  lemma ConcatCons(frame: bytes, frames: seq<bytes>)
    ensures Concat([frame] + frames) == frame + Concat(frames)
  {
    assert ([frame] + frames)[1..] == frames;
  }

  lemma {:induction false} AfterAllIs(x: Writer, items: seq<(Message, bytes, bytes)>)
    requires x.pc.WriterSelecting? && x.buffer == []
    ensures var y := AfterAll(x, items);
      && y.pc.WriterSelecting? && y.buffer == []
      && y.taken == x.taken + MessagesIn(items) && y.frames == x.frames + FramesIn(items)
      && y.wire == x.wire + Concat(FramesIn(items))
    decreases |items|
  {
    if items == [] {
    } else {
      var (m, nonce, frame) := items[0];
      var ms, fs := MessagesIn(items[1..]), FramesIn(items[1..]);
      AfterAllIs(AfterPut(x, m, nonce, frame), items[1..]);
      hide AfterAll, MessagesIn, FramesIn, Concat;
      assert x.taken + ([m] + ms) == (x.taken + [m]) + ms && x.frames + ([frame] + fs) == (x.frames + [frame]) + fs;
      ConcatCons(frame, fs);
      assert x.wire + (frame + Concat(fs)) == (x.wire + frame) + Concat(fs);
    }
  }

  lemma {:induction false} PutsAll(c: Config, w: Wrapper, items: seq<(Message, bytes, bytes)>) returns (es: seq<Event>)
    requires w.writer.pc.WriterSelecting? && w.writer.buffer == [] && Puttable(c, items)
    ensures Run(c, w, es, w.(writer := AfterAll(w.writer, items)))
    decreases |items|
  {
    hide Run, FrameOf;
    if items == [] {
      es := [];
      RunOfNothing(c, w);
    } else {
      var es1 := PutsOne(c, w, items[0].0, items[0].1, items[0].2);
      var w1 := w.(writer := AfterPut(w.writer, items[0].0, items[0].1, items[0].2));
      var es2 := PutsAll(c, w1, items[1..]);
      RunJoins(c, w, es1, w1, es2, w.(writer := AfterAll(w.writer, items)));
      es := es1 + es2;
    }
  }

  /** Any list of messages that have frames can go through a new wrapper, whatever the capacity of its
      channel: there is a run that leaves exactly their frames on the connection, in order, with the
      writer ready for more. */
  lemma EverythingCanBePut(c: Config, items: seq<(Message, bytes, bytes)>) returns (es: seq<Event>, w: Wrapper)
    requires Puttable(c, items)
    ensures Run(c, FRESH, es, w) && w.writer.pc.WriterSelecting? && w.writer.buffer == [] && !w.closed
    ensures w.writer.taken == MessagesIn(items) && w.writer.frames == FramesIn(items)
    ensures w.writer.wire == Concat(FramesIn(items))
  {
    hide Run, Puttable;
    var w1 := FRESH.(writer := NEW_WRITER.(pc := WriterSelecting));
    assert Next(c, FRESH, OfWriter(StartWriter)) == Some(w1);
    es := PutsAll(c, w1, items);
    w := w1.(writer := AfterAll(w1.writer, items));
    AfterAllIs(w1.writer, items);
    RunsOn(c, FRESH, OfWriter(StartWriter), w1, es, w);
    es := [OfWriter(StartWriter)] + es;
  }

  /** In every run each frame put in full is the frame of the message taken, of a registered type, field
      by field; in encrypted mode it is empty if and only if the message cannot be marshalled. */
  lemma PutFramesAreFrames(c: Config, es: seq<Event>, w: Wrapper)
    requires Run(c, FRESH, es, w) && MacHasFixedSize(c.lib)
    ensures |w.writer.frames| <= |w.writer.taken| && |w.writer.nonces| == |w.writer.frames|
    ensures forall i | 0 <= i < |w.writer.frames| ::
              IsFrame(c.lib, c.inverse, w.writer.taken[i], c.keys, w.writer.nonces[i], w.writer.frames[i])
  {
    hide Run, FrameOf, IsFrame, MacHasFixedSize;
    WriterConserves(c, es, w);
    forall i | 0 <= i < |w.writer.frames|
      ensures IsFrame(c.lib, c.inverse, w.writer.taken[i], c.keys, w.writer.nonces[i], w.writer.frames[i])
    {
      FrameOfIff(c.lib, c.inverse, w.writer.taken[i], c.keys, w.writer.nonces[i], w.writer.frames[i]);
    }
  }

  /** The call a goroutine of the wrapper makes when it ends. */
  predicate Ends(e: Event, other: Event) {
    (e.ReaderCloses? && other.ReaderCloses?) || (e.WriterCloses? && other.WriterCloses?)
    || (e.WatcherCloses? && other.WatcherCloses?)
  }

  /** This goroutine has ended. */
  predicate Ended(w: Wrapper, e: Event) {
    match e
    case ReaderCloses(_) => w.reader.pc.ReaderGone?
    case WriterCloses(_) => w.writer.pc.WriterGone?
    case WatcherCloses(_) => !w.watching
    case _ => false
  }

  lemma EndStep(c: Config, w: Wrapper, e: Event, of: Event)
    requires Next(c, w, e).Some? && (of.ReaderCloses? || of.WriterCloses? || of.WatcherCloses?)
    ensures Ended(Next(c, w, e).value, of) <==> Ended(w, of) || Ends(e, of)
    ensures Ended(w, of) ==> !Ends(e, of)
  {
    hide FrameOf, NextCall;
    if OfCall(e) {
      CallEffect(c, w, e);
    }
  }

  lemma {:induction false} EndedStays(c: Config, w: Wrapper, es: seq<Event>, w': Wrapper, of: Event)
    requires Run(c, w, es, w') && (of.ReaderCloses? || of.WriterCloses? || of.WatcherCloses?)
    ensures Ended(w', of) <==> Ended(w, of) || exists i | 0 <= i < |es| :: Ends(es[i], of)
    ensures Ended(w, of) ==> forall i | 0 <= i < |es| :: !Ends(es[i], of)
    decreases |es|
  {
    hide Next, Ends, Ended;
    if es == [] {
    } else {
      var rest := es[1..];
      EndStep(c, w, es[0], of);
      EndedStays(c, Next(c, w, es[0]).value, rest, w', of);
      assert forall i | 0 <= i < |rest| :: rest[i] == es[i + 1];
      assert forall i | 0 < i < |es| :: es[i] == rest[i - 1];
    }
  }

  /** Reader, writer and watcher each close the wrapper at most once, and they are gone exactly when they
      have. */
  lemma {:induction false} EachEndsOnce(c: Config, w: Wrapper, es: seq<Event>, w': Wrapper, of: Event)
    requires Run(c, w, es, w') && (of.ReaderCloses? || of.WriterCloses? || of.WatcherCloses?) && !Ended(w, of)
    ensures Ended(w', of) <==> exists i | 0 <= i < |es| :: Ends(es[i], of)
    ensures forall i, j | 0 <= i < j < |es| && Ends(es[i], of) :: !Ends(es[j], of)
    decreases |es|
  {
    hide Next, Ends, Ended;
    EndedStays(c, w, es, w', of);
    if es == [] {
    } else {
      var w1, rest := Next(c, w, es[0]).value, es[1..];
      EndStep(c, w, es[0], of);
      EndedStays(c, w1, rest, w', of);
      if !Ended(w1, of) {
        EachEndsOnce(c, w1, rest, w', of);
      }
      forall i, j | 0 <= i < j < |es| && Ends(es[i], of)
        ensures !Ends(es[j], of)
      {
        assert es[j] == rest[j - 1] && (i > 0 ==> es[i] == rest[i - 1]);
      }
    }
  }

  // ---- a closed wrapper can come to its end ----

  lemma {:induction false} Above(s: set<nat>) returns (id: nat)
    ensures forall x | x in s :: x < id
    decreases |s|
  {
    if s == {} {
      id := 0;
    } else {
      var x :| x in s;
      var rest := s - {x};
      var id' := Above(rest);
      id := if x < id' then id' else x + 1;
      assert forall y | y in s :: y == x || y in rest;
    }
  }

  /** What a message in the reader's hands can lead to: it can always be dispatched, and its route, if it
      goes to one, can panic, which ends the reader with the message delivered. */
  lemma DispatchOrPanic(c: Config, w: Wrapper, m: Message)
    requires w.reader.pc == Holding(m)
    ensures Next(c, w, OfReader(Dispatch)).Some?
    ensures Next(c, w, OfReader(RoutePanics)).Some? <==> !Target(c.routes, m).ToReceiver?
    ensures Next(c, w, OfReader(RoutePanics)).Some? ==>
              var r := Next(c, w, OfReader(RoutePanics)).value.reader;
              ReaderStopped(r) && r.delivered == w.reader.delivered + [Delivery(Target(c.routes, m), m)]
  {
    hide NextWriter, NextCall;
  }

  /** A closed wrapper whose two tokens have been sent. */
  ghost predicate Signalled(c: Config, w: Wrapper) {
    Inv(c, w) && Done(w) && w.signallers == [Finished]
  }

  lemma SignalCompletes(c: Config, w: Wrapper) returns (es: seq<Event>, w': Wrapper)
    requires Inv(c, w) && Done(w)
    ensures Run(c, w, es, w') && Signalled(c, w')
    ensures w'.reader == w.reader && w'.writer == w.writer && w'.calls == w.calls
    decreases if w.signallers == [ToReader] then 2 else if w.signallers == [ToWriter] then 1 else 0
  {
    hide Inv, Next;
    SignallerState(c, w);
    if w.signallers == [Finished] {
      es, w' := [], w;
      RunOfNothing(c, w);
    } else {
      var w1 := Next(c, w, Signal(0)).value;
      Stays(c, w, Signal(0));
      es, w' := SignalCompletes(c, w1);
      RunsOn(c, w, Signal(0), w1, es, w');
      es := [Signal(0)] + es;
    }
  }

  lemma SignallerState(c: Config, w: Wrapper)
    requires Inv(c, w) && Done(w)
    ensures |w.signallers| == 1
    ensures w.signallers[0].Finished? ==> w.signallers == [Finished]
    ensures !w.signallers[0].Finished? ==>
              && Next(c, w, Signal(0)).Some?
              && var w' := Next(c, w, Signal(0)).value;
                && Done(w') && w'.signallers == [if w.signallers[0].ToReader? then ToWriter else Finished]
                && w'.reader == w.reader && w'.writer == w.writer && w'.calls == w.calls
  {
    hide ReaderOk, WriterOk;
  }

  /** The step that brings a reader of such a wrapper nearer to its end. */
  function ReaderExit(pc: ReaderPc, id: nat): Event
    requires !pc.ReaderGone?
  {
    match pc
    case ReaderStarting => OfReader(StartReader)
    case ReaderSelecting => OfReader(TakeReaderToken)
    case Reading => OfReader(FinishRead(Failed))
    case Holding(_) => OfReader(Dispatch)
    case ReaderLeaving => ReaderCloses(id)
  }

  function ReaderToGo(pc: ReaderPc): nat {
    match pc
    case Holding(_) => 3
    case ReaderStarting => 2
    case ReaderSelecting => 2
    case Reading => 2
    case ReaderLeaving => 1
    case ReaderGone => 0
  }

  lemma ReaderExits(c: Config, w: Wrapper, id: nat)
    requires Signalled(c, w) && !w.reader.pc.ReaderGone? && id !in w.calls
    ensures var e := ReaderExit(w.reader.pc, id);
      && Next(c, w, e).Some?
      && var w' := Next(c, w, e).value;
        && Done(w') && w'.signallers == w.signallers && w'.writer == w.writer
        && ReaderToGo(w'.reader.pc) < ReaderToGo(w.reader.pc)
  {
    hide WriterOk, NextWriter, ClosingOk, Target;
  }

  lemma {:induction false} ReaderCanEnd(c: Config, w: Wrapper) returns (es: seq<Event>, w': Wrapper)
    requires Signalled(c, w)
    ensures Run(c, w, es, w') && Signalled(c, w') && w'.reader.pc.ReaderGone? && w'.writer == w.writer
    decreases ReaderToGo(w.reader.pc)
  {
    hide Inv, Next, Done, ReaderExit, ReaderToGo;
    if w.reader.pc.ReaderGone? {
      es, w' := [], w;
      RunOfNothing(c, w);
    } else {
      var id := Above(w.calls.Keys);
      var e := ReaderExit(w.reader.pc, id);
      ReaderExits(c, w, id);
      Stays(c, w, e);
      es, w' := ReaderCanEnd(c, Next(c, w, e).value);
      RunsOn(c, w, e, Next(c, w, e).value, es, w');
      es := [e] + es;
    }
  }

  function WriterExit(pc: WriterPc, id: nat): Event
    requires !pc.WriterGone?
  {
    match pc
    case WriterStarting => OfWriter(StartWriter)
    case WriterSelecting => OfWriter(TakeWriterToken)
    case Putting(_) => OfWriter(DeadlineFails)
    case WriterLeaving(_) => WriterCloses(id)
  }

  function WriterToGo(pc: WriterPc): nat {
    match pc
    case WriterStarting => 2
    case WriterSelecting => 2
    case Putting(_) => 2
    case WriterLeaving(_) => 1
    case WriterGone(_) => 0
  }

  /** A writer that still selects has not taken its token. */
  ghost predicate WriterHasToken(w: Wrapper) {
    w.writerSent > 0 && !WriterStopped(w.writer.pc) ==> w.writerChan > 0
  }

  lemma TokenStays(c: Config, w: Wrapper, e: Event)
    requires WriterHasToken(w) && Next(c, w, e).Some?
    ensures WriterHasToken(Next(c, w, e).value)
  {
    hide NextReader, FrameOf;
  }

  lemma {:induction false} RunKeepsToken(c: Config, w: Wrapper, es: seq<Event>, w': Wrapper)
    requires WriterHasToken(w) && Run(c, w, es, w')
    ensures WriterHasToken(w')
    decreases |es|
  {
    hide WriterHasToken, Next;
    if es == [] {
    } else {
      TokenStays(c, w, es[0]);
      RunKeepsToken(c, Next(c, w, es[0]).value, es[1..], w');
    }
  }

  lemma WriterExits(c: Config, w: Wrapper, id: nat)
    requires Signalled(c, w) && WriterHasToken(w) && !w.writer.pc.WriterGone? && id !in w.calls
    ensures var e := WriterExit(w.writer.pc, id);
      && Next(c, w, e).Some?
      && var w' := Next(c, w, e).value;
        && Done(w') && w'.signallers == w.signallers && w'.reader == w.reader
        && WriterToGo(w'.writer.pc) < WriterToGo(w.writer.pc)
  {
    hide ReaderOk, NextReader, ClosingOk, WriterOk, FrameOf;
  }

  lemma {:induction false} WriterCanEnd(c: Config, w: Wrapper) returns (es: seq<Event>, w': Wrapper)
    requires Signalled(c, w) && WriterHasToken(w)
    ensures Run(c, w, es, w') && Signalled(c, w') && w'.writer.pc.WriterGone? && w'.reader == w.reader
    decreases WriterToGo(w.writer.pc)
  {
    hide Inv, Next, Done, WriterExit, WriterToGo, WriterHasToken;
    if w.writer.pc.WriterGone? {
      es, w' := [], w;
      RunOfNothing(c, w);
    } else {
      var id := Above(w.calls.Keys);
      var e := WriterExit(w.writer.pc, id);
      WriterExits(c, w, id);
      Stays(c, w, e);
      TokenStays(c, w, e);
      es, w' := WriterCanEnd(c, Next(c, w, e).value);
      RunsOn(c, w, e, Next(c, w, e).value, es, w');
      es := [e] + es;
    }
  }

  /** From every reachable state in which closing is done the wrapper can come to its end: both tokens
      sent, and both loops gone. */
  lemma ShutdownCanComplete(c: Config, before: seq<Event>, w: Wrapper) returns (es: seq<Event>, w': Wrapper)
    requires Run(c, FRESH, before, w) && Done(w)
    ensures Run(c, w, es, w') && Done(w') && w'.signallers == [Finished]
    ensures w'.reader.pc.ReaderGone? && w'.writer.pc.WriterGone?
  {
    hide Inv, Next, Run, Done, WriterHasToken;
    FreshIsOk(c);
    RunKeeps(c, FRESH, before, w);
    RunKeepsToken(c, FRESH, before, w) by {
      assert WriterHasToken(FRESH) by { FreshHasToken(); }
    }
    var es1, w1 := SignalCompletes(c, w);
    var es2, w2 := ReaderCanEnd(c, w1);
    RunJoins(c, w, es1, w1, es2, w2);
    RunKeepsToken(c, w, es1 + es2, w2);
    var es3;
    es3, w' := WriterCanEnd(c, w2);
    RunJoins(c, w, es1 + es2, w2, es3, w');
    es := es1 + es2 + es3;
  }

  lemma FreshHasToken()
    ensures WriterHasToken(FRESH)
  {
  }
}
