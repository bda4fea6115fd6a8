/** What the parts give together: builders, discovery, handshake, wire and dispatch. */
module EndToEnd {
  import opened Bytes
  import opened Frames
  import opened Network
  import opened StreamDecoder
  import opened Registry
  import Discovery
  import Fragmentation
  import Handshake
  import Lifecycle
  import Loops
  import Progress
  import ReceiveLoop

  /** A message of a user type, ready to be sent by a builder `b`. */
  ghost predicate UserMessage(lib: Library, b: Maps, keys: Keys, m: Sent) {
    && m.msg.name in b.inverse && Discovery.IsUserType(m.msg.name)
    && lib.marshal(m.msg) == Some(m.raw) && |m.nonce| == NONCE_SIZE
    && |Payload(lib, m, keys)| < TWO_TO_THE_32
  }

  lemma MatchedMessagesAreSendable(hash: Hash, lib: Library, writer: Maps, reader: Maps, keys: Keys, ms: seq<Sent>)
    requires Valid(hash, writer) && Valid(hash, reader) && CollisionFree(hash, writer.inverse.Keys)
    requires Discovery.UserTypes(writer) == Discovery.UserTypes(reader)
    requires forall i | 0 <= i < |ms| :: UserMessage(lib, writer, keys, ms[i])
    ensures AllSendable(lib, writer.inverse, reader.idents, keys, ms)
  {
    hide Valid, CollisionFree, Discovery.UserTypes, Payload;
    forall i | 0 <= i < |ms|
      ensures ms[i].msg.name in writer.inverse && Sendable(lib, writer.inverse, reader.idents, keys, ms[i])
    {
      assert UserMessage(lib, writer, keys, ms[i]);
      Discovery.MatchedTypesResolve(hash, writer, reader, ms[i].msg.name);
    }
  }

  /** Two builders made by any options, matched strictly: what one encodes the other decodes, in
      both modes and for any number of messages. */
  lemma MatchedBuildersUnderstandEachOther(hash: Hash, lib: Library, writerOpts: seq<BuildOption>,
                                           readerOpts: seq<BuildOption>, keys: Keys, ms: seq<Sent>,
                                           rest: bytes, net: seq<ReadEvent>)
    requires Sound(lib)
    requires forall i | 0 <= i < |writerOpts| :: WellNamed(writerOpts[i])
    requires forall i | 0 <= i < |readerOpts| :: WellNamed(readerOpts[i])
    requires var writer, reader := ApplyAll(hash, EMPTY, writerOpts).0, ApplyAll(hash, EMPTY, readerOpts).0;
      && CollisionFree(hash, writer.inverse.Keys) && Discovery.UserTypes(writer) == Discovery.UserTypes(reader)
      && forall i | 0 <= i < |ms| :: UserMessage(lib, writer, keys, ms[i])
    ensures var writer, reader := ApplyAll(hash, EMPTY, writerOpts).0, ApplyAll(hash, EMPTY, readerOpts).0;
      && (forall i | 0 <= i < |ms| :: ms[i].msg.name in writer.inverse)
      && DecodeMany(lib, reader.idents, Source(Concat(Encodings(lib, writer.inverse, keys, ms)) + rest, net),
                    keys, |ms|)
           == (Messages(ms), Source(rest, net))
  {
    hide Valid, CollisionFree, Discovery.UserTypes, DecodeMany, Encodings, UserMessage, ApplyAll, Sendable;
    var writer, reader := ApplyAll(hash, EMPTY, writerOpts).0, ApplyAll(hash, EMPTY, readerOpts).0;
    NewBuilderIsValid(hash);
    BuildIsValid(hash, EMPTY, writerOpts);
    BuildIsValid(hash, EMPTY, readerOpts);
    MatchedMessagesAreSendable(hash, lib, writer, reader, keys, ms);
    StreamRoundTrip(lib, writer.inverse, reader.idents, keys, ms, rest, net);
  }

  function KeysOf(a: Handshake.ApiKey): Keys {
    Keys(Some(a.encKey), Some(a.hmacKey))
  }

  /** After the handshake, what a client encrypts with its own keys the server decrypts with the
      keys it was given: whatever the arrivals, a prefix of the messages comes out of its loop. */
  lemma AgreedKeysCarryMessages(rsa: Handshake.Rsa, priv: nat, es: seq<Handshake.Event>, s: Handshake.System, c: nat,
                                lib: Library, inverse: map<string, nat>, ident: IdentMap, ms: seq<Sent>,
                                arrivals: seq<seq<ReadEvent>>, ticks: nat)
    requires Handshake.RsaInverts(rsa) && Handshake.Run(rsa, priv, Handshake.START, es, s)
    requires c in s.added && c in s.clients && s.clients[c].secure
    requires Sound(lib) && Fragmentation.LowBytes(ident)
    requires var own := KeysOf(Handshake.ApiKey(s.clients[c].encKey, s.clients[c].hmacKey));
      AllSendable(lib, inverse, ident, own, ms) && ReceiveLoop.Arrives(lib, inverse, own, ms, arrivals)
    ensures ReceiveLoop.ReceiveTicks(lib, ident, KeysOf(s.added[c]), ReceiveLoop.Join(arrivals), ticks) <= Messages(ms)
  {
    hide AllSendable, ReceiveLoop.Arrives, ReceiveLoop.ReceiveTicks, Handshake.Run, Handshake.RsaInverts;
    Handshake.KeysAgree(rsa, priv, es, s);
    assert KeysOf(s.added[c]) == KeysOf(Handshake.ApiKey(s.clients[c].encKey, s.clients[c].hmacKey));
    assert [] + ReceiveLoop.Join(arrivals) == ReceiveLoop.Join(arrivals);
    ReceiveLoop.DeliversPrefix(lib, inverse, ident, KeysOf(s.added[c]), ms, arrivals, [], ticks);
  }

  /** A secure builder never dispatches to a default route, so a handshake message reaches the
      receiver channel the handshake waits on unless its own type was given a route. */
  lemma HandshakeMessagesReachTheReceiver(hash: Hash, opts: seq<BuildOption>, m: Message)
    requires forall i | 0 <= i < |opts| :: WellNamed(opts[i])
    requires ApplyAll(hash, EMPTY, opts).0.secure
    ensures var b := ApplyAll(hash, EMPTY, opts).0;
      Loops.Target(b.routes, m).ToReceiver? <==> m.name !in b.routes
  {
    NewBuilderIsValid(hash);
    BuildIsValid(hash, EMPTY, opts);
  }

  /** After any finished list of options a message goes to the last route given for its type, without one
      to the last default route given since security was last asked for, and else to the receiver. */
  lemma TargetFollowsTheLastRoute(hash: Hash, opts: seq<BuildOption>, m: Message)
    requires m.name != DEFAULT_ROUTE && ApplyAll(hash, EMPTY, opts).1
    ensures var routes := ApplyAll(hash, EMPTY, opts).0.routes;
      var own, default := RouteBy(false, None, opts, m.name), RouteBy(false, None, opts, DEFAULT_ROUTE);
      && Loops.Target(routes, m)
           == (if own.Some? then Loops.ToRoute(m.name) else if default.Some? then Loops.ToDefault else Loops.ToReceiver)
      && (own.Some? ==> m.name in routes && routes[m.name] == own.value)
      && (own.None? && default.Some? ==> DEFAULT_ROUTE in routes && routes[DEFAULT_ROUTE] == default.value)
  {
    hide ApplyAll, RouteBy;
    LastRouteIsInForce(hash, EMPTY, opts, m.name);
    LastRouteIsInForce(hash, EMPTY, opts, DEFAULT_ROUTE);
  }

  /** What the reads of a run came to, in order. */
  function Outcomes(es: seq<Lifecycle.Event>): seq<Outcome>
    decreases |es|
  {
    if es == [] then []
    else (if es[0].OfReader? && es[0].r.FinishRead? then [es[0].r.o] else []) + Outcomes(es[1..])
  }

  /** The reads are reads of this connection, each by a new buffered reader. */
  ghost predicate Follows(lib: Library, ident: IdentMap, keys: Keys, net: seq<ReadEvent>, outs: seq<Outcome>)
    decreases |outs|
  {
    outs == [] || (
      && outs[0] == Decode(lib, ident, Source([], net), keys).0
      && Follows(lib, ident, keys, Decode(lib, ident, Source([], net), keys).1.net, outs[1..]))
  }

  lemma ReaderStepEffect(c: Loops.Config, w: Lifecycle.Wrapper, e: Lifecycle.Event)
    requires Lifecycle.Next(c, w, e).Some?
    ensures var w' := Lifecycle.Next(c, w, e).value;
      if e.OfReader? && e.r.FinishRead? then
        && !Progress.ReaderStopped(w.reader) && (e.r.o.Failed? ==> Progress.ReaderStopped(w'.reader))
        && w'.reader.decoded == w.reader.decoded + (if e.r.o.Delivered? then [e.r.o.msg] else [])
      else
        && w'.reader.decoded == w.reader.decoded
        && (Progress.ReaderStopped(w.reader) ==> Progress.ReaderStopped(w'.reader))
  {
    hide Loops.NextWriter;
  }

  /** A reader that has stopped reads no more. */
  lemma {:induction false} StoppedReadsNothing(c: Loops.Config, w: Lifecycle.Wrapper, es: seq<Lifecycle.Event>,
                                               w': Lifecycle.Wrapper)
    requires Lifecycle.Run(c, w, es, w') && Progress.ReaderStopped(w.reader)
    ensures w'.reader.decoded == w.reader.decoded
    decreases |es|
  {
    hide Lifecycle.Next;
    if es == [] {
    } else {
      ReaderStepEffect(c, w, es[0]);
      StoppedReadsNothing(c, Lifecycle.Next(c, w, es[0]).value, es[1..], w');
    }
  }

  /** In every interleaving, what a wrapper decodes is what the receive loop gets from its connection. */
  lemma {:induction false} DecodedIsReceived(c: Loops.Config, ident: IdentMap, net: seq<ReadEvent>,
                                             w: Lifecycle.Wrapper, es: seq<Lifecycle.Event>, w': Lifecycle.Wrapper)
    requires Lifecycle.Run(c, w, es, w') && Follows(c.lib, ident, c.keys, net, Outcomes(es))
    ensures w'.reader.decoded <= w.reader.decoded + ReceiveLoop.ReceiveTicks(c.lib, ident, c.keys, net, |Outcomes(es)|)
    decreases |es|
  {
    hide Lifecycle.Next, Decode, Progress.ReaderStopped;
    if es == [] {
      return;
    }
    var w1 := Lifecycle.Next(c, w, es[0]).value;
    ReaderStepEffect(c, w, es[0]);
    if es[0].OfReader? && es[0].r.FinishRead? {
      assert Outcomes(es)[1..] == Outcomes(es[1..]);
      if es[0].r.o.Failed? {
        StoppedReadsNothing(c, w1, es[1..], w');
      } else {
        var net' := Decode(c.lib, ident, Source([], net), c.keys).1.net;
        DecodedIsReceived(c, ident, net', w1, es[1..], w');
        hide Outcomes, Follows;
        var later := ReceiveLoop.ReceiveTicks(c.lib, ident, c.keys, net', |Outcomes(es[1..])|);
        assert forall m :: (w.reader.decoded + [m]) + later == w.reader.decoded + ([m] + later);
      }
    } else {
      assert Outcomes(es) == Outcomes(es[1..]);
      DecodedIsReceived(c, ident, net, w1, es[1..], w');
    }
  }

  /** The messages a writer put, with what their frames carry: all that it put in full, and possibly
      the one it was putting when a write failed. */
  ghost predicate PutBy(x: Loops.Writer, ms: seq<Sent>) {
    && |x.frames| == |x.nonces| <= |ms| <= |x.taken|
    && |ms| <= |x.frames| + (if Loops.Lost(x.pc) then 1 else 0)
    && forall i | 0 <= i < |ms| ::
         ms[i].msg == x.taken[i] && ms[i].nonce == if i < |x.frames| then x.nonces[i] else x.lastNonce
  }

  lemma {:induction false} MessagesOfWriter(ms: seq<Sent>, taken: seq<Message>)
    requires |ms| <= |taken| && forall i | 0 <= i < |ms| :: ms[i].msg == taken[i]
    ensures Messages(ms) <= taken
  {
    if ms == [] {
    } else {
      MessagesOfWriter(ms[1..], taken[1..]);
      assert taken == [taken[0]] + taken[1..];
    }
  }

  /** The connection carries the frames of these messages, the last one perhaps not to its end. */
  ghost predicate Carries(c: Loops.Config, x: Loops.Writer, ms: seq<Sent>) {
    && |x.frames| <= |ms| <= |x.frames| + 1
    && (forall i | 0 <= i < |ms| :: ms[i].msg.name in c.inverse)
    && (forall i | 0 <= i < |x.frames| :: Frame(c.lib, c.inverse, c.keys, ms[i]) == x.frames[i])
    && Concat(x.frames) <= x.wire
    && (|ms| > |x.frames| ==> x.wire <= Concat(x.frames) + Frame(c.lib, c.inverse, c.keys, ms[|x.frames|]))
  }

  /** From channel to channel: take any run of the sending wrapper and any run of the receiving one,
      with any number of closers, and let what the first put arrive at the second, no arrival spanning
      two frames and the last frame possibly cut short by a failed write.  Then what the second has
      dispatched, each message to its destination, is a prefix of what the first was handed. */
  lemma DispatchedWasHandedOver(ca: Loops.Config, ea: seq<Lifecycle.Event>, a: Lifecycle.Wrapper,
                                cb: Loops.Config, eb: seq<Lifecycle.Event>, b: Lifecycle.Wrapper,
                                ident: IdentMap, ms: seq<Sent>, arrivals: seq<seq<ReadEvent>>)
    requires Lifecycle.Run(ca, Lifecycle.FRESH, ea, a) && Lifecycle.Run(cb, Lifecycle.FRESH, eb, b)
    requires ca.lib == cb.lib && ca.keys == cb.keys && Sound(ca.lib) && Fragmentation.LowBytes(ident)
    requires PutBy(a.writer, ms) && AllSendable(ca.lib, ca.inverse, ident, ca.keys, ms)
    requires ReceiveLoop.Arrives(ca.lib, ca.inverse, ca.keys, ms, arrivals)
    requires Follows(cb.lib, ident, cb.keys, ReceiveLoop.Join(arrivals), Outcomes(eb))
    ensures Carries(ca, a.writer, ms)
    ensures Loops.Contents(b.reader.delivered) <= a.writer.handed
    ensures forall i | 0 <= i < |b.reader.delivered| ::
              b.reader.delivered[i].to == Loops.Target(cb.routes, b.reader.delivered[i].msg)
  {
    hide *;
    FramesAgree(ca, ea, a, ident, ms);
    SentWasHandedOver(ca, ea, a, ms);
    DispatchedWasSent(cb, eb, b, ca.inverse, ident, ms, arrivals);
  }

  lemma SentWasHandedOver(c: Loops.Config, es: seq<Lifecycle.Event>, a: Lifecycle.Wrapper, ms: seq<Sent>)
    requires Lifecycle.Run(c, Lifecycle.FRESH, es, a) && PutBy(a.writer, ms)
    ensures Messages(ms) <= a.writer.handed
  {
    hide Lifecycle.Run, FrameOf;
    Lifecycle.WriterConserves(c, es, a);
    MessagesOfWriter(ms, a.writer.taken);
  }

  lemma DispatchedWasSent(c: Loops.Config, es: seq<Lifecycle.Event>, b: Lifecycle.Wrapper, inverse: map<string, nat>,
                          ident: IdentMap, ms: seq<Sent>, arrivals: seq<seq<ReadEvent>>)
    requires Lifecycle.Run(c, Lifecycle.FRESH, es, b) && Sound(c.lib) && Fragmentation.LowBytes(ident)
    requires AllSendable(c.lib, inverse, ident, c.keys, ms) && ReceiveLoop.Arrives(c.lib, inverse, c.keys, ms, arrivals)
    requires Follows(c.lib, ident, c.keys, ReceiveLoop.Join(arrivals), Outcomes(es))
    ensures Loops.Contents(b.reader.delivered) <= Messages(ms)
    ensures forall i | 0 <= i < |b.reader.delivered| ::
              b.reader.delivered[i].to == Loops.Target(c.routes, b.reader.delivered[i].msg)
  {
    hide Lifecycle.Run, ReceiveLoop.Arrives, ReceiveLoop.ReceiveTicks, ReceiveLoop.Join;
    hide Follows, AllSendable, Sound, Outcomes, Messages;
    Lifecycle.DispatchConserves(c, es, b, Loops.ToReceiver);
    DecodedIsReceived(c, ident, ReceiveLoop.Join(arrivals), Lifecycle.FRESH, es, b);
    assert [] + ReceiveLoop.Join(arrivals) == ReceiveLoop.Join(arrivals);
    ReceiveLoop.DeliversPrefix(c.lib, inverse, ident, c.keys, ms, arrivals, [], |Outcomes(es)|) by {
      assert AllZero([]);
    }
    var r := ReceiveLoop.ReceiveTicks(c.lib, ident, c.keys, ReceiveLoop.Join(arrivals), |Outcomes(es)|);
    assert Lifecycle.FRESH.reader.decoded + r == r;
    assert b.reader.decoded <= r;
    assert Loops.Contents(b.reader.delivered) <= b.reader.decoded;
  }

  lemma FramesAgree(c: Loops.Config, es: seq<Lifecycle.Event>, a: Lifecycle.Wrapper, ident: IdentMap, ms: seq<Sent>)
    requires Lifecycle.Run(c, Lifecycle.FRESH, es, a) && Sound(c.lib)
    requires PutBy(a.writer, ms) && AllSendable(c.lib, c.inverse, ident, c.keys, ms)
    ensures Carries(c, a.writer, ms)
  {
    hide Lifecycle.Run, Sendable, Frame, FrameOf, Sound;
    Lifecycle.WriterConserves(c, es, a);
    forall i | 0 <= i < |ms|
      ensures ms[i].msg.name in c.inverse
      ensures FrameOf(c.lib, c.inverse, ms[i].msg, c.keys, ms[i].nonce) == Some(Frame(c.lib, c.inverse, c.keys, ms[i]))
    {
      FrameIsEncoded(c.lib, c.inverse, ident, c.keys, ms[i]);
    }
  }

  lemma OutcomesCons(e: Lifecycle.Event, es: seq<Lifecycle.Event>)
    ensures Outcomes([e] + es) == (if e.OfReader? && e.r.FinishRead? then [e.r.o] else []) + Outcomes(es)
  {
    assert ([e] + es)[1..] == es;
  }

  /** A reader after one read, whose message it dispatches if there is one. */
  function AfterRead(routes: map<string, nat>, r: Loops.Reader, o: Outcome, sent: bool): Loops.Reader {
    match o
    case Failed => r.(pc := Loops.ReaderLeaving)
    case EndOfStream => r
    case Delivered(m) => Loops.HandOver(routes, r.(decoded := r.decoded + [m]), m, sent).(pc := Loops.ReaderSelecting)
  }

  lemma ReadsOne(c: Loops.Config, w: Lifecycle.Wrapper, o: Outcome, tail: seq<Lifecycle.Event>, w': Lifecycle.Wrapper)
    returns (es: seq<Lifecycle.Event>)
    requires w.reader.pc.ReaderSelecting? && w.readerChan == 0
    requires Lifecycle.Run(c, w.(reader := AfterRead(c.routes, w.reader, o, w.readerSent > 0)), tail, w')
    ensures Lifecycle.Run(c, w, es, w') && Outcomes(es) == [o] + Outcomes(tail)
  {
    hide Lifecycle.Run, Outcomes, Lifecycle.NextCall, Loops.NextWriter;
    var reading := w.(reader := w.reader.(pc := Loops.Reading));
    var done := w.(reader := AfterRead(c.routes, w.reader, o, w.readerSent > 0));
    es := tail;
    var read := done;
    if o.Delivered? {
      read := w.(reader := w.reader.(pc := Loops.Holding(o.msg), decoded := w.reader.decoded + [o.msg]));
      assert Lifecycle.Next(c, read, Lifecycle.OfReader(Loops.Dispatch)) == Some(done);
      Lifecycle.RunsOn(c, read, Lifecycle.OfReader(Loops.Dispatch), done, es, w');
      OutcomesCons(Lifecycle.OfReader(Loops.Dispatch), es);
      es := [Lifecycle.OfReader(Loops.Dispatch)] + es;
    }
    assert Lifecycle.Next(c, reading, Lifecycle.OfReader(Loops.FinishRead(o))) == Some(read);
    Lifecycle.RunsOn(c, reading, Lifecycle.OfReader(Loops.FinishRead(o)), read, es, w');
    OutcomesCons(Lifecycle.OfReader(Loops.FinishRead(o)), es);
    es := [Lifecycle.OfReader(Loops.FinishRead(o))] + es;
    assert Lifecycle.Next(c, w, Lifecycle.OfReader(Loops.BeginRead)) == Some(reading);
    Lifecycle.RunsOn(c, w, Lifecycle.OfReader(Loops.BeginRead), reading, es, w');
    OutcomesCons(Lifecycle.OfReader(Loops.BeginRead), es);
    es := [Lifecycle.OfReader(Loops.BeginRead)] + es;
  }

  /** A reader after `n` reads of this connection, as far as they go. */
  function AfterReads(c: Loops.Config, ident: IdentMap, r: Loops.Reader, sent: bool, net: seq<ReadEvent>,
                      n: nat): Loops.Reader
    decreases n
  {
    if n == 0 then r
    else
      var (o, s) := Decode(c.lib, ident, Source([], net), c.keys);
      var r' := AfterRead(c.routes, r, o, sent);
      if o.Failed? then r' else AfterReads(c, ident, r', sent, s.net, n - 1)
  }

  lemma {:induction false} AfterReadsIs(c: Loops.Config, ident: IdentMap, r: Loops.Reader, sent: bool,
                                        net: seq<ReadEvent>, n: nat)
    ensures var r' := AfterReads(c, ident, r, sent, net, n);
      var got := ReceiveLoop.ReceiveTicks(c.lib, ident, c.keys, net, n);
      r'.decoded == r.decoded + got && Loops.Contents(r'.delivered) == Loops.Contents(r.delivered) + got
    decreases n
  {
    hide Decode, Loops.Target;
    if n == 0 {
    } else {
      var (o, s) := Decode(c.lib, ident, Source([], net), c.keys);
      AfterReadsIs(c, ident, AfterRead(c.routes, r, o, sent), sent, s.net, n - 1);
      if o.Delivered? {
        var d := Loops.Delivery(Loops.Target(c.routes, o.msg), o.msg);
        assert Loops.Contents(r.delivered + [d]) == Loops.Contents(r.delivered) + [o.msg];
      }
    }
  }

  lemma {:induction false} ReadsOn(c: Loops.Config, ident: IdentMap, net: seq<ReadEvent>, w: Lifecycle.Wrapper, n: nat)
    returns (es: seq<Lifecycle.Event>)
    requires w.reader.pc.ReaderSelecting? && w.readerChan == 0
    ensures Lifecycle.Run(c, w, es, w.(reader := AfterReads(c, ident, w.reader, w.readerSent > 0, net, n)))
    ensures Follows(c.lib, ident, c.keys, net, Outcomes(es))
    decreases n
  {
    hide Lifecycle.Run, Decode, Loops.HandOver;
    var sent := w.readerSent > 0;
    if n == 0 {
      es := [];
      Progress.RunOfNothing(c, w);
    } else {
      var (o, s) := Decode(c.lib, ident, Source([], net), c.keys);
      var w1 := w.(reader := AfterRead(c.routes, w.reader, o, sent));
      var w' := w.(reader := AfterReads(c, ident, w.reader, sent, net, n));
      if o.Failed? {
        es := [];
        Progress.RunOfNothing(c, w1);
      } else {
        es := ReadsOn(c, ident, s.net, w1, n - 1);
      }
      var outs := Outcomes(es);
      es := ReadsOne(c, w, o, es, w');
      assert ([o] + outs)[1..] == outs;
    }
  }

  /** The reader of an open wrapper does read: for every connection and every number of passes there is a
      run in which it decodes, and dispatches, all that the receive loop gets from the connection. */
  lemma EverythingCanBeRead(c: Loops.Config, ident: IdentMap, net: seq<ReadEvent>, n: nat)
    returns (es: seq<Lifecycle.Event>, w: Lifecycle.Wrapper)
    ensures Lifecycle.Run(c, Lifecycle.FRESH, es, w) && Follows(c.lib, ident, c.keys, net, Outcomes(es))
    ensures w.reader.decoded == ReceiveLoop.ReceiveTicks(c.lib, ident, c.keys, net, n)
    ensures Loops.Contents(w.reader.delivered) == w.reader.decoded
  {
    hide Lifecycle.Run, Outcomes, Follows, AfterReads, ReceiveLoop.ReceiveTicks;
    var started := Lifecycle.FRESH.(reader := Loops.NEW_READER.(pc := Loops.ReaderSelecting));
    assert Lifecycle.Next(c, Lifecycle.FRESH, Lifecycle.OfReader(Loops.StartReader)) == Some(started);
    es := ReadsOn(c, ident, net, started, n);
    w := started.(reader := AfterReads(c, ident, started.reader, false, net, n));
    AfterReadsIs(c, ident, started.reader, false, net, n);
    Lifecycle.RunsOn(c, Lifecycle.FRESH, Lifecycle.OfReader(Loops.StartReader), started, es, w);
    OutcomesCons(Lifecycle.OfReader(Loops.StartReader), es);
    assert [] + Outcomes(es) == Outcomes(es);
    es := [Lifecycle.OfReader(Loops.StartReader)] + es;
    assert Loops.Contents(started.reader.delivered) == [];
  }

  function ItemsOf(lib: Library, inverse: map<string, nat>, keys: Keys, ms: seq<Sent>): seq<(Message, bytes, bytes)>
    requires forall i | 0 <= i < |ms| :: ms[i].msg.name in inverse
  {
    if ms == [] then []
    else [(ms[0].msg, ms[0].nonce, Frame(lib, inverse, keys, ms[0]))] + ItemsOf(lib, inverse, keys, ms[1..])
  }

  lemma {:induction false} ItemsAre(c: Loops.Config, ident: IdentMap, ms: seq<Sent>)
    requires Sound(c.lib) && AllSendable(c.lib, c.inverse, ident, c.keys, ms)
    ensures forall i | 0 <= i < |ms| :: ms[i].msg.name in c.inverse
    ensures var items := ItemsOf(c.lib, c.inverse, c.keys, ms);
      && Progress.Puttable(c, items) && Progress.MessagesIn(items) == Messages(ms)
      && Progress.FramesIn(items) == Encodings(c.lib, c.inverse, c.keys, ms)
  {
    hide Sendable, Frame, FrameOf;
    if ms == [] {
    } else {
      ItemsAre(c, ident, ms[1..]);
      FrameIsEncoded(c.lib, c.inverse, ident, c.keys, ms[0]);
    }
  }

  lemma {:induction false} AllFit(lib: Library, inverse: map<string, nat>, keys: Keys, ms: seq<Sent>)
    requires forall i | 0 <= i < |ms| :: ms[i].msg.name in inverse
    requires forall i | 0 <= i < |ms| :: |Frame(lib, inverse, keys, ms[i])| <= BUFFER_SIZE
    ensures ReceiveLoop.Fitting(lib, inverse, keys, ms) == |ms|
  {
    hide Frame;
  }

  /** From channel to channel nothing need be lost: for any messages whose frames fit the reader's
      buffer there are a run that puts them all and a run that, with each frame arriving at once,
      dispatches them all. */
  lemma EverythingCanArrive(ca: Loops.Config, cb: Loops.Config, ident: IdentMap, ms: seq<Sent>)
    returns (ea: seq<Lifecycle.Event>, a: Lifecycle.Wrapper, eb: seq<Lifecycle.Event>, b: Lifecycle.Wrapper)
    requires ca.lib == cb.lib && ca.keys == cb.keys && Sound(ca.lib)
    requires AllSendable(ca.lib, ca.inverse, ident, ca.keys, ms)
    requires forall i | 0 <= i < |ms| :: |Frame(ca.lib, ca.inverse, ca.keys, ms[i])| <= BUFFER_SIZE
    ensures Lifecycle.Run(ca, Lifecycle.FRESH, ea, a) && Lifecycle.Run(cb, Lifecycle.FRESH, eb, b)
    ensures a.writer.handed == a.writer.taken == Messages(ms) && a.writer.wire == Concat(a.writer.frames)
    ensures Follows(cb.lib, ident, cb.keys, ReceiveLoop.OneByOne(a.writer.frames), Outcomes(eb))
    ensures Loops.Contents(b.reader.delivered) == Messages(ms)
  {
    hide *;
    ItemsAre(ca, ident, ms);
    ea, a := Progress.EverythingCanBePut(ca, ItemsOf(ca.lib, ca.inverse, ca.keys, ms));
    HandedIsTaken(ca, ea, a);
    eb, b := EverythingCanBeRead(cb, ident, ReceiveLoop.OneByOne(a.writer.frames), |ms|);
    ReceiveLoop.DeliversTheFittingFront(ca.lib, ca.inverse, ident, ca.keys, ms, |ms|);
    AllFit(ca.lib, ca.inverse, ca.keys, ms);
    assert ms[..|ms|] == ms;
  }

  lemma HandedIsTaken(c: Loops.Config, es: seq<Lifecycle.Event>, w: Lifecycle.Wrapper)
    requires Lifecycle.Run(c, Lifecycle.FRESH, es, w) && w.writer.buffer == []
    ensures w.writer.handed == w.writer.taken
  {
    hide Lifecycle.Run, FrameOf;
    Lifecycle.WriterConserves(c, es, w);
    assert w.writer.taken + [] == w.writer.taken;
  }
}
