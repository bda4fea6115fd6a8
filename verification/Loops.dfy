/** The reader and writer goroutines of a wrapper, one step at a time. */
module Loops {
  import opened Bytes
  import opened Frames
  import opened StreamDecoder
  import Registry

  /** What a wrapper was built with; `capacity` is that of the sender channel. */
  datatype Config = Config(lib: Library, inverse: map<string, nat>, keys: Keys, routes: map<string, nat>,
                           capacity: nat, websocket: bool)

  datatype Destination = ToRoute(name: string) | ToDefault | ToReceiver
  datatype Delivery = Delivery(to: Destination, msg: Message)

  /** The first that applies: the route of the message's name, the default route, the receiver. */
  function Target(routes: map<string, nat>, m: Message): (to: Destination)
    ensures to == ToRoute(m.name) <==> m.name in routes
    ensures to == ToDefault <==> m.name !in routes && Registry.DEFAULT_ROUTE in routes
    ensures to == ToReceiver <==> m.name !in routes && Registry.DEFAULT_ROUTE !in routes
  {
    if m.name in routes then ToRoute(m.name)
    else if |routes| > 0 && Registry.DEFAULT_ROUTE in routes then ToDefault
    else ToReceiver
  }

  datatype ReaderPc = ReaderStarting | ReaderSelecting | Reading | Holding(msg: Message) | ReaderLeaving | ReaderGone

  /** `late` counts the messages dispatched after the shutdown token was deposited. */
  datatype Reader = Reader(pc: ReaderPc, decoded: seq<Message>, delivered: seq<Delivery>, late: nat)

  datatype ReaderStep = StartReader | TakeReaderToken | BeginRead | FinishRead(o: Outcome) | Dispatch | RoutePanics

  const NEW_READER := Reader(ReaderStarting, [], [], 0)

  /** `token`: the shutdown channel holds its token now; `sent`: it was ever deposited. */
  function NextReader(routes: map<string, nat>, r: Reader, closed: bool, token: bool, sent: bool,
                      e: ReaderStep): Option<Reader>
  {
    match (e, r.pc)
    case (StartReader, ReaderStarting) => Some(r.(pc := if closed then ReaderLeaving else ReaderSelecting))
    case (TakeReaderToken, ReaderSelecting) => if token then Some(r.(pc := ReaderLeaving)) else None
    case (BeginRead, ReaderSelecting) => if token then None else Some(r.(pc := Reading))
    case (FinishRead(Failed), Reading) => Some(r.(pc := ReaderLeaving))
    case (FinishRead(EndOfStream), Reading) => Some(r.(pc := ReaderSelecting))
    case (FinishRead(Delivered(m)), Reading) => Some(r.(pc := Holding(m), decoded := r.decoded + [m]))
    case (Dispatch, Holding(m)) => Some(HandOver(routes, r, m, sent).(pc := ReaderSelecting))
    case (RoutePanics, Holding(m)) =>
      if Target(routes, m).ToReceiver? then None else Some(HandOver(routes, r, m, sent).(pc := ReaderLeaving))
    case _ => None
  }

  function HandOver(routes: map<string, nat>, r: Reader, m: Message, sent: bool): Reader {
    r.(delivered := r.delivered + [Delivery(Target(routes, m), m)], late := r.late + if sent then 1 else 0)
  }

  function Contents(ds: seq<Delivery>): seq<Message> {
    seq(|ds|, i requires 0 <= i < |ds| => ds[i].msg)
  }

  ghost predicate ReaderOk(routes: map<string, nat>, r: Reader, token: bool, sent: bool) {
    && (token ==> sent) && (r.pc.ReaderStarting? ==> r.decoded == [])
    && r.decoded == (if r.pc.Holding? then Contents(r.delivered) + [r.pc.msg] else Contents(r.delivered))
    && (forall i | 0 <= i < |r.delivered| :: r.delivered[i].to == Target(routes, r.delivered[i].msg))
    && r.late <= (if sent then 1 else 0)
    && (sent && (r.pc.Reading? || r.pc.Holding?) ==> r.late == 0)
    && (sent && !r.pc.ReaderLeaving? && !r.pc.ReaderGone? ==> token)
  }

  lemma ReaderStays(routes: map<string, nat>, r: Reader, closed: bool, token: bool, sent: bool, e: ReaderStep)
    requires ReaderOk(routes, r, token, sent) && NextReader(routes, r, closed, token, sent, e).Some?
    ensures ReaderOk(routes, NextReader(routes, r, closed, token, sent, e).value, token && !e.TakeReaderToken?, sent)
  {
  }

  /** Depositing the token cannot upset the reader. */
  lemma ReaderGetsToken(routes: map<string, nat>, r: Reader)
    requires ReaderOk(routes, r, false, false)
    ensures ReaderOk(routes, r, true, true)
  {
  }

  /** The messages of `ms` that belong to one destination. */
  function Share(routes: map<string, nat>, ms: seq<Message>, to: Destination): seq<Message>
    decreases |ms|
  {
    if ms == [] then []
    else Share(routes, ms[..|ms| - 1], to) + (if Target(routes, ms[|ms| - 1]) == to then [ms[|ms| - 1]] else [])
  }

  function Inbox(ds: seq<Delivery>, to: Destination): seq<Message>
    decreases |ds|
  {
    if ds == [] then []
    else Inbox(ds[..|ds| - 1], to) + (if ds[|ds| - 1].to == to then [ds[|ds| - 1].msg] else [])
  }

  /** Every destination gets its share, in order. */
  lemma {:induction false} SharesMatch(routes: map<string, nat>, ds: seq<Delivery>, to: Destination)
    requires forall i | 0 <= i < |ds| :: ds[i].to == Target(routes, ds[i].msg)
    ensures Inbox(ds, to) == Share(routes, Contents(ds), to)
  {
    if ds == [] {
    } else {
      SharesMatch(routes, ds[..|ds| - 1], to);
      assert Contents(ds)[..|ds| - 1] == Contents(ds[..|ds| - 1]);
    }
  }

  /** Why the writer stopped: the shutdown token, an error, or the wrapper was closed at once. */
  datatype Cause = Shutdown | Failure | NeverRan
  datatype WriterPc = WriterStarting | WriterSelecting | Putting(msg: Message) | WriterLeaving(cause: Cause)
      | WriterGone(cause: Cause)

  /** `handed` are the messages whose send on the channel has completed, `taken` those the writer
      received, `frames` those put in full; `wire` is everything it put on the connection, and
      `lastNonce` what the last put was sealed with. */
  datatype Writer = Writer(pc: WriterPc, buffer: seq<Message>, handed: seq<Message>, taken: seq<Message>,
                           nonces: seq<bytes>, frames: seq<bytes>, wire: bytes, lastNonce: bytes)

  datatype WriterStep = StartWriter | Offer(m: Message) | Take | TakeWriterToken
      | Put(nonce: bytes, accepted: nat) | DeadlineFails

  const NEW_WRITER := Writer(WriterStarting, [], [], [], [], [], [], [])

  function NextWriter(c: Config, w: Writer, closed: bool, token: bool, e: WriterStep): Option<Writer> {
    match e
    case StartWriter =>
      if w.pc.WriterStarting? then Some(w.(pc := if closed then WriterLeaving(NeverRan) else WriterSelecting)) else None
    case Offer(m) =>
      if c.capacity > 0 then
        if |w.buffer| < c.capacity then Some(w.(buffer := w.buffer + [m], handed := w.handed + [m])) else None
      else if w.pc.WriterSelecting? then Some(w.(pc := Putting(m), handed := w.handed + [m], taken := w.taken + [m]))
      else None
    case Take =>
      if w.pc.WriterSelecting? && w.buffer != [] then
        Some(w.(pc := Putting(w.buffer[0]), buffer := w.buffer[1..], taken := w.taken + [w.buffer[0]]))
      else None
    case TakeWriterToken =>
      if w.pc.WriterSelecting? && token then Some(w.(pc := WriterLeaving(Shutdown))) else None
    case DeadlineFails =>
      if w.pc.Putting? then Some(w.(pc := WriterLeaving(Failure))) else None
    case Put(nonce, accepted) =>
      if !w.pc.Putting? then None
      else
        var frame := FrameOf(c.lib, c.inverse, w.pc.msg, c.keys, nonce);
        var w' := w.(wire := w.wire + PutBytes(frame, accepted), lastNonce := nonce);
        if PutSucceeds(frame, accepted) then
          Some(w'.(pc := WriterSelecting, nonces := w.nonces + [nonce], frames := w.frames + [frame.value]))
        else Some(w'.(pc := WriterLeaving(Failure)))
  }

  predicate Lost(pc: WriterPc) {
    (pc.WriterLeaving? || pc.WriterGone?) && pc.cause.Failure?
  }

  /** The frame of the message a failed write was about, or nothing if it has none. */
  function LostFrame(c: Config, w: Writer): bytes
    requires |w.frames| < |w.taken|
  {
    var frame := FrameOf(c.lib, c.inverse, w.taken[|w.frames|], c.keys, w.lastNonce);
    if frame.Some? then frame.value else []
  }

  ghost predicate WriterOk(c: Config, w: Writer) {
    && w.handed == w.taken + w.buffer && |w.buffer| <= c.capacity && (w.pc.WriterStarting? ==> w.taken == [])
    && |w.nonces| == |w.frames| == |w.taken| - (if w.pc.Putting? || Lost(w.pc) then 1 else 0)
    && (forall i | 0 <= i < |w.frames| ::
          FrameOf(c.lib, c.inverse, w.taken[i], c.keys, w.nonces[i]) == Some(w.frames[i]))
    && (w.pc.Putting? ==> w.taken[|w.frames|] == w.pc.msg)
    && (if Lost(w.pc) then Concat(w.frames) <= w.wire <= Concat(w.frames) + LostFrame(c, w)
        else w.wire == Concat(w.frames))
  }

  /** Frames reach the connection whole, in the order taken, except for at most the one message in
      flight or lost to a failed write. */
  lemma WriterStays(c: Config, w: Writer, closed: bool, token: bool, e: WriterStep)
    requires WriterOk(c, w) && NextWriter(c, w, closed, token, e).Some?
    ensures WriterOk(c, NextWriter(c, w, closed, token, e).value)
  {
    hide FrameOf;
    if e.Put? && w.pc.Putting? {
      var frame := FrameOf(c.lib, c.inverse, w.pc.msg, c.keys, e.nonce);
      if PutSucceeds(frame, e.accepted) {
        ConcatAppend(w.frames, [frame.value]);
        assert Concat([frame.value]) == frame.value + Concat([]);
      }
    }
  }
}
