/** One wrapper and its goroutines: reader, writer, idle watcher, signaller, and any number of
    callers of `Close` and `softClose`, in every interleaving. */
module Lifecycle {
  import opened Bytes
  import opened Frames
  import opened StreamDecoder
  import opened Loops

  datatype Kind = Hard | Soft   // Close, softClose

  datatype CallPc = Waiting | Locked | Spawning | ClosingChannel | ClosingConn | Releasing | Returned
  datatype Call = Call(kind: Kind, pc: CallPc)

  datatype SignalPc = ToReader | ToWriter | Finished

  /** `channelCloses` counts the executions of `close(n.closed)`; the second one panics, which
      nothing recovers, and sets `crashed`.  `first` is the kind of the first call that found the
      wrapper open; `connCloses` counts this wrapper's closings of the connection. */
  datatype Wrapper = Wrapper(
    mutex: Option<nat>, calls: map<nat, Call>,
    closed: bool, channelCloses: nat, crashed: bool,
    first: Option<Kind>, connCloses: nat,
    signallers: seq<SignalPc>,
    readerChan: nat, readerSent: nat, writerChan: nat, writerSent: nat,
    reader: Reader, writer: Writer, watching: bool)

  const FRESH := Wrapper(None, map[], false, 0, false, None, 0, [], 0, 0, 0, 0, NEW_READER, NEW_WRITER, true)

  /** The capacity both shutdown channels are made with. */
  const SHUTDOWN_CAPACITY := 1

  datatype Event =
    | Begin(id: nat, kind: Kind)
    | Acquire(id: nat) | Check(id: nat) | Spawn(id: nat)
    | CloseChannel(id: nat) | CloseConn(id: nat) | Release(id: nat)
    | Signal(k: nat)
    | OfReader(r: ReaderStep) | ReaderCloses(id: nat)
    | OfWriter(w: WriterStep) | WriterCloses(id: nat)
    | WatcherCloses(id: nat)

  function At(w: Wrapper, id: nat, pc: CallPc): Wrapper
    requires id in w.calls
  {
    w.(calls := w.calls[id := w.calls[id].(pc := pc)])
  }

  predicate IsAt(w: Wrapper, id: nat, pc: CallPc) {
    id in w.calls && w.calls[id].pc == pc
  }

  /** A call by someone new; `softClose` of a websocket wrapper panics instead of doing anything. */
  function Enter(c: Config, w: Wrapper, id: nat, kind: Kind): Option<Wrapper> {
    if id in w.calls || (c.websocket && kind.Soft?) then None
    else Some(w.(calls := w.calls[id := Call(kind, Waiting)]))
  }

  function NextSignal(w: Wrapper, k: nat): Option<Wrapper> {
    if k >= |w.signallers| then None
    else match w.signallers[k]
      case ToReader =>
        if w.readerChan == SHUTDOWN_CAPACITY then None
        else Some(w.(signallers := w.signallers[k := ToWriter], readerChan := w.readerChan + 1,
                     readerSent := w.readerSent + 1))
      case ToWriter =>
        if w.writerChan == SHUTDOWN_CAPACITY then None
        else Some(w.(signallers := w.signallers[k := Finished], writerChan := w.writerChan + 1,
                     writerSent := w.writerSent + 1))
      case Finished => None
  }

  /** The statements of `Close` and `softClose`; the websocket `Close` closes the connection before
      the channel, the others after it. */
  function NextCall(c: Config, w: Wrapper, e: Event): Option<Wrapper>
    requires e.Acquire? || e.Check? || e.Spawn? || e.CloseChannel? || e.CloseConn? || e.Release?
  {
    var id := e.id;
    if id !in w.calls then None
    else
      var kind := w.calls[id].kind;
      match (e, w.calls[id].pc)
      case (Acquire(_), Waiting) => if w.mutex.None? then Some(At(w, id, Locked).(mutex := Some(id))) else None
      case (Check(_), Locked) =>
        if w.closed then Some(At(w, id, Releasing))
        else Some(At(w, id, Spawning).(first := if w.first.None? then Some(kind) else w.first))
      case (Spawn(_), Spawning) =>
        Some(At(w, id, if c.websocket then ClosingConn else ClosingChannel).(signallers := w.signallers + [ToReader]))
      case (CloseChannel(_), ClosingChannel) =>
        Some(At(w, id, if kind.Hard? && !c.websocket then ClosingConn else Releasing)
          .(closed := true, channelCloses := w.channelCloses + 1, crashed := w.crashed || w.closed))
      case (CloseConn(_), ClosingConn) =>
        Some(At(w, id, if c.websocket then ClosingChannel else Releasing).(connCloses := w.connCloses + 1))
      case (Release(_), Releasing) => Some(At(w, id, Returned).(mutex := None))
      case _ => None
  }

  function Next(c: Config, w: Wrapper, e: Event): Option<Wrapper> {
    match e
    case Begin(id, kind) => Enter(c, w, id, kind)
    case Signal(k) => NextSignal(w, k)
    case OfReader(r) =>
      (match NextReader(c.routes, w.reader, w.closed, w.readerChan > 0, w.readerSent > 0, r)
       case None => None
       case Some(reader) =>
         Some(w.(reader := reader, readerChan := if r.TakeReaderToken? then w.readerChan - 1 else w.readerChan)))
    case OfWriter(s) =>
      (match NextWriter(c, w.writer, w.closed, w.writerChan > 0, s)
       case None => None
       case Some(writer) =>
         Some(w.(writer := writer, writerChan := if s.TakeWriterToken? then w.writerChan - 1 else w.writerChan)))
    case ReaderCloses(id) =>
      if w.reader.pc.ReaderLeaving? then Enter(c, w.(reader := w.reader.(pc := ReaderGone)), id, Hard) else None
    case WriterCloses(id) =>
      if !w.writer.pc.WriterLeaving? then None
      else Enter(c, w.(writer := w.writer.(pc := WriterGone(w.writer.pc.cause))), id, Hard)
    case WatcherCloses(id) =>
      if w.watching then Enter(c, w.(watching := false), id, Hard) else None
    case _ => NextCall(c, w, e)
  }

  predicate Critical(pc: CallPc) {
    !pc.Waiting? && !pc.Returned?
  }

  /** No call is between the lock and the unlock: closing is either not begun or complete. */
  ghost predicate Settled(w: Wrapper) {
    && (w.closed <==> w.first.Some?)
    && |w.signallers| == (if w.closed then 1 else 0)
    && w.connCloses == (if w.first == Some(Hard) then 1 else 0)
  }

  /** Closing is behind this wrapper: later calls only look and leave. */
  ghost predicate Done(w: Wrapper) {
    && w.closed && Settled(w)
    && (w.mutex.Some? ==> IsAt(w, w.mutex.value, Locked) || IsAt(w, w.mutex.value, Releasing))
  }

  ghost predicate ClosingOk(c: Config, w: Wrapper) {
    && (forall i | i in w.calls :: w.mutex == Some(i) <==> Critical(w.calls[i].pc))
    && (forall i | i in w.calls && c.websocket :: w.calls[i].kind.Hard?)
    && (forall i | i in w.calls && w.calls[i].pc.Returned? :: Done(w))
    && (w.mutex.Some? ==> w.mutex.value in w.calls)
    && w.channelCloses == (if w.closed then 1 else 0) && !w.crashed
    && if w.mutex.None? then Settled(w)
       else
         var call := w.calls[w.mutex.value];
         match call.pc
         case Spawning => !w.closed && w.first == Some(call.kind) && w.signallers == [] && w.connCloses == 0
         case ClosingChannel =>
           !w.closed && w.first == Some(call.kind) && |w.signallers| == 1
               && w.connCloses == (if c.websocket then 1 else 0)
         case ClosingConn =>
           w.closed == !c.websocket && w.first == Some(Hard) == Some(call.kind) && |w.signallers| == 1
               && w.connCloses == 0
         case _ => Settled(w) && (call.pc.Releasing? ==> w.closed)
  }

  ghost predicate SignalsOk(w: Wrapper) {
    && |w.signallers| <= 1
    && w.readerSent == (if w.signallers != [] && !w.signallers[0].ToReader? then 1 else 0)
    && w.writerSent == (if w.signallers != [] && w.signallers[0].Finished? then 1 else 0)
    && w.readerChan <= w.readerSent && w.writerChan <= w.writerSent
  }

  ghost predicate Inv(c: Config, w: Wrapper) {
    && ClosingOk(c, w) && SignalsOk(w)
    && ReaderOk(c.routes, w.reader, w.readerChan > 0, w.readerSent > 0)
    && WriterOk(c, w.writer)
  }

  lemma FreshIsOk(c: Config)
    ensures Inv(c, FRESH)
  {
  }

  lemma EnterKeeps(c: Config, w: Wrapper, id: nat, kind: Kind)
    requires ClosingOk(c, w) && Enter(c, w, id, kind).Some?
    ensures ClosingOk(c, Enter(c, w, id, kind).value)
  {
  }

  lemma LockKeeps(c: Config, w: Wrapper, e: Event)
    requires e.Acquire? || e.Check? || e.Release?
    requires ClosingOk(c, w) && SignalsOk(w) && NextCall(c, w, e).Some?
    ensures ClosingOk(c, NextCall(c, w, e).value) && SignalsOk(NextCall(c, w, e).value)
  {
    assert e.id in w.calls;
    assert !e.Acquire? ==> w.mutex == Some(e.id);
  }

  lemma CloseKeeps(c: Config, w: Wrapper, e: Event)
    requires e.Spawn? || e.CloseChannel? || e.CloseConn?
    requires ClosingOk(c, w) && SignalsOk(w) && NextCall(c, w, e).Some?
    ensures ClosingOk(c, NextCall(c, w, e).value) && SignalsOk(NextCall(c, w, e).value)
  {
    assert e.id in w.calls && w.mutex == Some(e.id);
  }

  lemma SignalKeeps(c: Config, w: Wrapper, k: nat)
    requires Inv(c, w) && NextSignal(w, k).Some?
    ensures Inv(c, NextSignal(w, k).value)
  {
    hide ReaderOk, WriterOk;
    if w.signallers[k].ToReader? {
      ReaderGetsToken(c.routes, w.reader);
    }
  }

  lemma ReaderStepKeeps(c: Config, w: Wrapper, r: ReaderStep)
    requires Inv(c, w) && Next(c, w, OfReader(r)).Some?
    ensures Inv(c, Next(c, w, OfReader(r)).value)
  {
    hide ReaderOk, WriterOk, NextReader, NextWriter, NextCall;
    ReaderStays(c.routes, w.reader, w.closed, w.readerChan > 0, w.readerSent > 0, r);
  }

  lemma WriterStepKeeps(c: Config, w: Wrapper, s: WriterStep)
    requires Inv(c, w) && Next(c, w, OfWriter(s)).Some?
    ensures Inv(c, Next(c, w, OfWriter(s)).value)
  {
    hide ReaderOk, WriterOk, NextReader, NextWriter, NextCall;
    WriterStays(c, w.writer, w.closed, w.writerChan > 0, s);
  }

  /** A goroutine that ends turns into a caller of `Close`. */
  lemma LeavingKeeps(c: Config, w: Wrapper, e: Event)
    requires e.ReaderCloses? || e.WriterCloses? || e.WatcherCloses?
    requires Inv(c, w) && Next(c, w, e).Some?
    ensures Inv(c, Next(c, w, e).value)
  {
    hide ReaderOk, WriterOk, ClosingOk, NextReader, NextWriter, NextCall;
    match e
    case ReaderCloses(id) =>
      var w' := w.(reader := w.reader.(pc := ReaderGone));
      assert ClosingOk(c, w') by { SameClosing(c, w, w'); }
      EnterKeeps(c, w', id, Hard);
      ReaderGoes(c.routes, w.reader, w.readerChan > 0, w.readerSent > 0);
    case WriterCloses(id) =>
      var w' := w.(writer := w.writer.(pc := WriterGone(w.writer.pc.cause)));
      assert ClosingOk(c, w') by { SameClosing(c, w, w'); }
      EnterKeeps(c, w', id, Hard);
      WriterGoes(c, w.writer);
    case WatcherCloses(id) =>
      var w' := w.(watching := false);
      assert ClosingOk(c, w') by { SameClosing(c, w, w'); }
      EnterKeeps(c, w', id, Hard);
  }

  lemma SameClosing(c: Config, w: Wrapper, w': Wrapper)
    requires ClosingOk(c, w)
    requires w' == w.(reader := w'.reader, writer := w'.writer, watching := w'.watching)
    ensures ClosingOk(c, w')
  {
  }

  lemma ReaderGoes(routes: map<string, nat>, r: Reader, token: bool, sent: bool)
    requires ReaderOk(routes, r, token, sent) && r.pc.ReaderLeaving?
    ensures ReaderOk(routes, r.(pc := ReaderGone), token, sent)
  {
  }

  lemma WriterGoes(c: Config, w: Writer)
    requires WriterOk(c, w) && w.pc.WriterLeaving?
    ensures WriterOk(c, w.(pc := WriterGone(w.pc.cause)))
  {
  }

  /** Every step keeps the invariant. */
  lemma Stays(c: Config, w: Wrapper, e: Event)
    requires Inv(c, w) && Next(c, w, e).Some?
    ensures Inv(c, Next(c, w, e).value)
  {
    hide ReaderOk, WriterOk, NextReader, NextWriter, NextCall, ClosingOk;
    match e
    case Begin(id, kind) => EnterKeeps(c, w, id, kind);
    case Signal(k) => SignalKeeps(c, w, k);
    case OfReader(r) => ReaderStepKeeps(c, w, r);
    case OfWriter(s) => WriterStepKeeps(c, w, s);
    case ReaderCloses(_) => LeavingKeeps(c, w, e);
    case WriterCloses(_) => LeavingKeeps(c, w, e);
    case WatcherCloses(_) => LeavingKeeps(c, w, e);
    case _ =>
      if e.Acquire? || e.Check? || e.Release? {
        LockKeeps(c, w, e);
      } else {
        CloseKeeps(c, w, e);
      }
      CallKeepsLoops(c, w, e);
  }

  /** The closing statements touch neither loop nor the tokens. */
  lemma CallKeepsLoops(c: Config, w: Wrapper, e: Event)
    requires e.Acquire? || e.Check? || e.Spawn? || e.CloseChannel? || e.CloseConn? || e.Release?
    requires NextCall(c, w, e).Some?
    ensures var w' := NextCall(c, w, e).value;
      && w'.reader == w.reader && w'.writer == w.writer
      && w'.readerChan == w.readerChan && w'.readerSent == w.readerSent
  {
  }

  /** The events happen one after the other, each possible when its turn comes. */
  ghost predicate Run(c: Config, w: Wrapper, es: seq<Event>, w': Wrapper)
    decreases |es|
  {
    if es == [] then w' == w
    else Next(c, w, es[0]).Some? && Run(c, Next(c, w, es[0]).value, es[1..], w')
  }

  lemma {:induction false} RunKeeps(c: Config, w: Wrapper, es: seq<Event>, w': Wrapper)
    requires Inv(c, w) && Run(c, w, es, w')
    ensures Inv(c, w')
    decreases |es|
  {
    hide Inv, Next;
    if es == [] {
    } else {
      Stays(c, w, es[0]);
      RunKeeps(c, Next(c, w, es[0]).value, es[1..], w');
    }
  }

  /** In every run: `closed` is closed at most once and nothing crashes, at most one signaller is
      spawned, each shutdown channel gets at most one token, and the signaller can always go on. */
  lemma ClosedAtMostOnce(c: Config, es: seq<Event>, w: Wrapper)
    requires Run(c, FRESH, es, w)
    ensures w.channelCloses <= 1 && !w.crashed
    ensures |w.signallers| <= 1 && w.readerSent <= 1 && w.writerSent <= 1
    ensures w.closed ==> |w.signallers| == 1 && (w.signallers[0].Finished? ==> w.readerSent == w.writerSent == 1)
    ensures forall k | 0 <= k < |w.signallers| && !w.signallers[k].Finished? :: Next(c, w, Signal(k)).Some?
  {
    hide ReaderOk, WriterOk, NextReader, NextWriter, NextCall, Run;
    FreshIsOk(c);
    RunKeeps(c, FRESH, es, w);
  }

  /** In every run, whenever no call is under way in the critical section, this wrapper has closed
      the connection (once) if and only if the first effective call was `Close`; it never closes
      it more than once. */
  lemma ClosesConnIffFirstWasHard(c: Config, es: seq<Event>, w: Wrapper)
    requires Run(c, FRESH, es, w)
    ensures w.connCloses <= 1
    ensures w.connCloses == 1 ==> w.first == Some(Hard)
    ensures w.mutex.None? ==> (w.connCloses == 1 <==> w.first == Some(Hard)) && (w.closed <==> w.first.Some?)
  {
    hide ReaderOk, WriterOk, Next, Run;
    FreshIsOk(c);
    RunKeeps(c, FRESH, es, w);
  }

  lemma TwoKinds(k: Option<Kind>)
    ensures k == None || k == Some(Hard) || k == Some(Soft)
  {
    if k.Some? {
      assert k.value.Hard? || k.value.Soft?;
    }
  }

  /** Once decided, the first effective call stays what it is. */
  lemma FirstIsFinal(c: Config, w: Wrapper, e: Event)
    requires Inv(c, w) && Next(c, w, e).Some?
    ensures w.first.Some? ==> Next(c, w, e).value.first == w.first
    ensures Next(c, w, e).value.connCloses > w.connCloses ==>
              w.first == Some(Hard) && w.mutex.Some? && IsAt(w, w.mutex.value, ClosingConn)
    ensures Next(c, w, e).value.connCloses == w.connCloses + if e.CloseConn? then 1 else 0
  {
    hide ReaderOk, WriterOk, SignalsOk, NextReader, NextWriter;
  }

  /** A wrapper whose closing is done never closes the connection again. */
  lemma DoneStays(c: Config, w: Wrapper, e: Event)
    requires Inv(c, w) && Done(w) && Next(c, w, e).Some?
    ensures Done(Next(c, w, e).value) && !e.CloseConn? && Next(c, w, e).value.first == w.first
  {
    hide ReaderOk, WriterOk, SignalsOk, NextReader, NextWriter;
    if e.Acquire? || e.Check? || e.Spawn? || e.CloseChannel? || e.CloseConn? || e.Release? {
      assert e.id in w.calls;
      assert !e.Acquire? ==> w.mutex == Some(e.id);
    }
  }

  /** Dispatch in every run: what was decoded went, in order, each message to its one destination,
      and after the shutdown token came at most one more. */
  lemma DispatchConserves(c: Config, es: seq<Event>, w: Wrapper, to: Destination)
    requires Run(c, FRESH, es, w)
    ensures var r := w.reader;
      && (forall i | 0 <= i < |r.delivered| :: r.delivered[i].to == Target(c.routes, r.delivered[i].msg))
      && r.decoded == Contents(r.delivered) + (if r.pc.Holding? then [r.pc.msg] else [])
      && Inbox(r.delivered, to) == Share(c.routes, Contents(r.delivered), to)
      && r.late <= 1
  {
    hide WriterOk, Next;
    FreshIsOk(c);
    RunKeeps(c, FRESH, es, w);
    SharesMatch(c.routes, w.reader.delivered, to);
  }

  predicate ByToken(pc: WriterPc) {
    pc == WriterLeaving(Shutdown) || pc == WriterGone(Shutdown)
  }

  /** The writer in every run: the connection carries the encodings of the messages taken, whole and
      in order, but for at most the last one; a writer that left by the token lost none it took, so
      with an unbuffered channel a completed send is never discarded. */
  lemma WriterConserves(c: Config, es: seq<Event>, w: Wrapper)
    requires Run(c, FRESH, es, w)
    ensures var x := w.writer;
      && |x.frames| <= |x.taken| <= |x.frames| + 1 && |x.nonces| == |x.frames|
      && (forall i | 0 <= i < |x.frames| ::
            FrameOf(c.lib, c.inverse, x.taken[i], c.keys, x.nonces[i]) == Some(x.frames[i]))
      && (if Lost(x.pc) then |x.frames| < |x.taken| && Concat(x.frames) <= x.wire <= Concat(x.frames) + LostFrame(c, x)
          else x.wire == Concat(x.frames))
      && (|x.taken| > |x.frames| ==> Lost(x.pc) || x.pc == Putting(x.taken[|x.frames|]))
      && x.handed == x.taken + x.buffer && |x.buffer| <= c.capacity
      && (ByToken(x.pc) ==> x.wire == Concat(x.frames) && (|x.frames| == |x.handed| <==> x.buffer == []))
      && (ByToken(x.pc) && c.capacity == 0 ==> |x.frames| == |x.handed|)
  {
    hide ReaderOk, Next, FrameOf;
    FreshIsOk(c);
    RunKeeps(c, FRESH, es, w);
  }

  lemma RunsOn(c: Config, w: Wrapper, e: Event, w': Wrapper, es: seq<Event>, w'': Wrapper)
    requires Next(c, w, e) == Some(w') && Run(c, w', es, w'')
    ensures Run(c, w, [e] + es, w'')
  {
  }

  lemma {:induction false} RunAppends(c: Config, w: Wrapper, es: seq<Event>, w': Wrapper, e: Event)
    requires Run(c, w, es, w') && Next(c, w', e).Some?
    ensures Run(c, w, es + [e], Next(c, w', e).value)
    decreases |es|
  {
    hide Next;
    if es == [] {
      RunsOn(c, w, e, Next(c, w', e).value, [], Next(c, w', e).value);
    } else {
      RunAppends(c, Next(c, w, es[0]).value, es[1..], w', e);
      assert (es + [e])[1..] == es[1..] + [e];
    }
  }

  /** A wrapper in the middle of call `id`. */
  function During(w: Wrapper, id: nat, call: Call): Wrapper {
    w.(mutex := if Critical(call.pc) then Some(id) else None, calls := w.calls[id := call])
  }

  lemma AtDuring(w: Wrapper, id: nat, kind: Kind, pc: CallPc, pc': CallPc)
    ensures At(During(w, id, Call(kind, pc)), id, pc')
        == During(w, id, Call(kind, pc)).(calls := w.calls[id := Call(kind, pc')])
  {
  }

  /** A `softClose` that nothing interrupts, on a wrapper that is open. */
  lemma SoftCloseAlone(c: Config, es: seq<Event>, w: Wrapper, id: nat) returns (es': seq<Event>, w': Wrapper)
    requires Run(c, FRESH, es, w) && !c.websocket && id !in w.calls
    requires w.mutex.None? && !w.closed && w.signallers == [] && w.first.None?
    ensures Run(c, FRESH, es', w')
    ensures w' == During(w, id, Call(Soft, Returned)).(closed := true, channelCloses := w.channelCloses + 1,
                                                      first := Some(Soft), signallers := [ToReader])
  {
    hide Run, NextReader, NextWriter;
    var w1 := During(w, id, Call(Soft, Waiting));
    assert Next(c, w, Begin(id, Soft)) == Some(w1);
    RunAppends(c, FRESH, es, w, Begin(id, Soft));
    es' := es + [Begin(id, Soft)];
    AtDuring(w, id, Soft, Waiting, Locked);
    var w2 := During(w, id, Call(Soft, Locked));
    assert Next(c, w1, Acquire(id)) == Some(w2);
    RunAppends(c, FRESH, es', w1, Acquire(id));
    es' := es' + [Acquire(id)];
    AtDuring(w, id, Soft, Locked, Spawning);
    var w3 := During(w, id, Call(Soft, Spawning)).(first := Some(Soft));
    assert Next(c, w2, Check(id)) == Some(w3);
    RunAppends(c, FRESH, es', w2, Check(id));
    es' := es' + [Check(id)];
    es', w' := SoftCloseRest(c, es', w3, id, w);
  }

  lemma SoftCloseRest(c: Config, es: seq<Event>, w3: Wrapper, id: nat, w: Wrapper)
    returns (es': seq<Event>, w': Wrapper)
    requires Run(c, FRESH, es, w3) && !c.websocket && !w.closed && w.signallers == [] && w.mutex.None?
    requires w3 == During(w, id, Call(Soft, Spawning)).(first := Some(Soft))
    ensures Run(c, FRESH, es', w')
    ensures w' == During(w, id, Call(Soft, Returned)).(closed := true, channelCloses := w.channelCloses + 1,
                                                      first := Some(Soft), signallers := [ToReader])
  {
    hide Run, NextReader, NextWriter;
    AtDuring(w, id, Soft, Spawning, ClosingChannel);
    var w4 := During(w, id, Call(Soft, ClosingChannel)).(first := Some(Soft), signallers := [ToReader]);
    assert w3.signallers + [ToReader] == [ToReader];
    assert Next(c, w3, Spawn(id)) == Some(w4);
    RunAppends(c, FRESH, es, w3, Spawn(id));
    es' := es + [Spawn(id)];
    AtDuring(w, id, Soft, ClosingChannel, Releasing);
    var w5 := During(w, id, Call(Soft, Releasing)).(first := Some(Soft), signallers := [ToReader], closed := true,
                                                    channelCloses := w.channelCloses + 1);
    assert Next(c, w4, CloseChannel(id)) == Some(w5);
    RunAppends(c, FRESH, es', w4, CloseChannel(id));
    es' := es' + [CloseChannel(id)];
    AtDuring(w, id, Soft, Releasing, Returned);
    w' := During(w, id, Call(Soft, Returned)).(first := Some(Soft), signallers := [ToReader], closed := true,
                                               channelCloses := w.channelCloses + 1);
    assert Next(c, w5, Release(id)) == Some(w');
    RunAppends(c, FRESH, es', w5, Release(id));
    es' := es' + [Release(id)];
  }

  /** With a buffered channel a message whose send completed can be left behind by the token. */
  lemma BufferedSendCanBeLost(c: Config, m: Message) returns (es: seq<Event>, w: Wrapper)
    requires c.capacity > 0 && !c.websocket
    ensures Run(c, FRESH, es, w)
    ensures w.writer.handed == [m] && w.writer.pc == WriterGone(Shutdown) && w.writer.frames == []
  {
    es, w := [], FRESH;
    RunAppends(c, FRESH, es, w, OfWriter(StartWriter));
    es, w := es + [OfWriter(StartWriter)], Next(c, w, OfWriter(StartWriter)).value;
    RunAppends(c, FRESH, es, w, OfWriter(Offer(m)));
    es, w := es + [OfWriter(Offer(m))], Next(c, w, OfWriter(Offer(m))).value;
    es, w := SoftCloseAlone(c, es, w, 0);
    RunAppends(c, FRESH, es, w, Signal(0));
    es, w := es + [Signal(0)], Next(c, w, Signal(0)).value;
    RunAppends(c, FRESH, es, w, Signal(0));
    es, w := es + [Signal(0)], Next(c, w, Signal(0)).value;
    RunAppends(c, FRESH, es, w, OfWriter(TakeWriterToken));
    es, w := es + [OfWriter(TakeWriterToken)], Next(c, w, OfWriter(TakeWriterToken)).value;
    RunAppends(c, FRESH, es, w, WriterCloses(1));
    es, w := es + [WriterCloses(1)], Next(c, w, WriterCloses(1)).value;
  }

  /** What a caller of the wrapper object can see of the closing. */
  datatype ClosingState = ClosingState(closed: bool, signallers: nat, connCloses: nat)

  function ClosingOf(w: Wrapper): ClosingState {
    ClosingState(w.closed, |w.signallers|, w.connCloses)
  }

  /** The effect of one whole call. */
  function Closing(s: ClosingState, kind: Kind): ClosingState {
    if s.closed then s else ClosingState(true, s.signallers + 1, s.connCloses + if kind.Hard? then 1 else 0)
  }

  /** The raw connection; the source ignores the error of closing it again. */
  class RawConn {
    var closes: nat

    constructor ()
      ensures closes == 0
    {
      closes := 0;
    }

    method Close()
      modifies this
      ensures closes == old(closes) + 1
    {
      closes := closes + 1;
    }
  }

  /** The wrapper object with the statements of one closing call under its mutex. */
  class Nan0 {
    const conn: RawConn
    var closed: bool
    var signallers: nat

    constructor (conn: RawConn)
      ensures this.conn == conn && !closed && signallers == 0
    {
      this.conn := conn;
      closed, signallers := false, 0;
    }

    function View(): ClosingState
      reads this, conn
    {
      ClosingState(closed, signallers, conn.closes)
    }

    method IsClosed() returns (r: bool)
      ensures r == closed
    {
      r := closed;
    }

    method CloseLogic()
      requires !closed
      modifies this
      ensures closed && signallers == old(signallers) + 1
    {
      signallers := signallers + 1;
      closed := true;
    }

    method SoftClose()
      modifies this
      ensures View() == Closing(old(View()), Soft)
    {
      var already := IsClosed();
      if already {
        return;
      }
      CloseLogic();
    }

    method Close()
      modifies this, conn
      ensures View() == Closing(old(View()), Hard)
    {
      var already := IsClosed();
      if already {
        return;
      }
      CloseLogic();
      conn.Close();
    }
  }

  /** Whatever the interleaving, whenever no call holds the mutex the wrapper is as one sequential
      call of the first effective kind leaves the object, and any further call changes nothing. */
  lemma SettledIsSequential(c: Config, es: seq<Event>, w: Wrapper, kind: Kind)
    requires Run(c, FRESH, es, w) && w.mutex.None?
    ensures ClosingOf(w) == if w.first.None? then ClosingOf(FRESH) else Closing(ClosingOf(FRESH), w.first.value)
    ensures w.first.Some? ==> Closing(ClosingOf(w), kind) == ClosingOf(w)
  {
    hide ReaderOk, WriterOk, Next;
    FreshIsOk(c);
    RunKeeps(c, FRESH, es, w);
  }
}
