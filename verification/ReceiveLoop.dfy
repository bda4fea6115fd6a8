/** The receive loop of the TCP wrapper: a fresh buffered reader for every message. */
module ReceiveLoop {
  import opened Bytes
  import opened Frames
  import opened Network
  import opened StreamDecoder
  import opened Fragmentation

  /** What the loop hands on when the shutdown token is there after `ticks` passes.  Bytes left in
      a reader are dropped with it; the nil pair only means another pass; an error ends the loop. */
  function ReceiveTicks(lib: Library, ident: IdentMap, keys: Keys, net: seq<ReadEvent>, ticks: nat): seq<Message>
    decreases ticks
  {
    if ticks == 0 then []
    else match Decode(lib, ident, Source([], net), keys)
      case (Failed, _) => []
      case (EndOfStream, s) => ReceiveTicks(lib, ident, keys, s.net, ticks - 1)
      case (Delivered(m), s) => [m] + ReceiveTicks(lib, ident, keys, s.net, ticks - 1)
  }

  method StartServiceReceiver(conn: Conn, lib: Library, ident: IdentMap, keys: Keys, ticks: nat)
    returns (delivered: seq<Message>)
    modifies conn
    ensures delivered == ReceiveTicks(lib, ident, keys, old(conn.events), ticks)
  {
    hide Decode;
    delivered := [];
    ghost var all := ReceiveTicks(lib, ident, keys, conn.events, ticks);
    for i := 0 to ticks
      invariant delivered + ReceiveTicks(lib, ident, keys, conn.events, ticks - i) == all
    {
      var reader := new BufferedReader(conn);
      var o := GetMessageFromConnection(reader, lib, ident, keys);
      match o
      case Failed => return;
      case EndOfStream =>
      case Delivered(m) => delivered := delivered + [m];
    }
  }

  function Join(arrivals: seq<seq<ReadEvent>>): seq<ReadEvent> {
    if arrivals == [] then [] else arrivals[0] + Join(arrivals[1..])
  }

  /** Passes that find the end of the stream take one event each. */
  function AfterEnds(g: seq<ReadEvent>): seq<ReadEvent> {
    if g != [] && g[0] == Fault(true) then AfterEnds(g[1..]) else g
  }

  /** What the prefix property asks of one frame's arrivals.  When encrypted, that nothing else in
      the frame opens.  In plain mode, that the size field of a frame with a payload is not the first
      to be cut, or not after nothing but zeros. */
  ghost predicate Trusted(lib: Library, inverse: map<string, nat>, keys: Keys, m: Sent, g: seq<ReadEvent>) {
    && m.msg.name in inverse
    && if keys.Encrypted() then OpensOnly(lib, keys.enc.value, Frame(lib, inverse, keys, m), Payload(lib, m, keys))
       else
         || m.raw == [] || !CutInSize(AfterEnds(g))
         || (SizeFieldRefused(lib, m.msg.name, Frame(lib, inverse, keys, m)) && !SizeSeenAsZero(m, AfterEnds(g)))
  }

  /** The frames of `ms` arrive one after the other, no arrival spanning two of them; the last one
      may be truncated, and later ones may be missing. */
  ghost predicate Arrives(lib: Library, inverse: map<string, nat>, keys: Keys, ms: seq<Sent>,
                          arrivals: seq<seq<ReadEvent>>)
  {
    arrivals == [] || (
      && ms != [] && Trusted(lib, inverse, keys, ms[0], arrivals[0])
      && (if |arrivals| == 1 then Flatten(arrivals[0]) <= Frame(lib, inverse, keys, ms[0])
          else Flatten(arrivals[0]) == Frame(lib, inverse, keys, ms[0]))
      && Arrives(lib, inverse, keys, ms[1..], arrivals[1..]))
  }

  lemma SendableTail(lib: Library, inverse: map<string, nat>, ident: IdentMap, keys: Keys, ms: seq<Sent>)
    requires AllSendable(lib, inverse, ident, keys, ms) && ms != []
    ensures Sendable(lib, inverse, ident, keys, ms[0]) && AllSendable(lib, inverse, ident, keys, ms[1..])
  {
  }

  lemma SizeIsLocal(s: Source, rest: seq<ReadEvent>)
    requires Stream(s) != []
    ensures var (n, s') := ReadSize(s);
      ReadSize(Source(s.buf, s.net + rest)) == (n, Source(s'.buf, s'.net + rest))
  {
    hide SizeReader;
    ReadIsLocal(s.buf, s.net, rest, SIZE_WIDTH);
  }

  lemma SizeConserves(s: Source)
    ensures |Stream(ReadSize(s).1)| + SIZE_WIDTH >= |Stream(s)|
    ensures |Stream(ReadSize(s).1)| + SIZE_WIDTH == |Stream(s)| ==> Stream(ReadSize(s).1) == Stream(s)[SIZE_WIDTH..]
  {
    ReadConserves(s, SIZE_WIDTH);
  }

  /** What decoding the rest of a frame does not read past: more bytes than its header has left, or
      the size field of an empty payload. */
  ghost predicate AtHand(s: Source, keys: Keys, header: nat) {
    || |Stream(s)| > header
    || (!keys.Encrypted() && |Stream(s)| == header >= SIZE_WIDTH && AllZero(Stream(s)[header - SIZE_WIDTH..]))
  }

  lemma ZerosReadAsZero(s: Source)
    requires AllZero(Stream(s))
    ensures ReadSize(s).0 == 0
  {
    ReadConserves(s, SIZE_WIDTH);
    var (r, s') := ReadFrom(s, SIZE_WIDTH);
    if r.Got? {
      assert forall i | 0 <= i < |r.data| :: r.data[i] == Stream(s)[i];
      assert Padded(r.data, SIZE_WIDTH) == Zeros(SIZE_WIDTH);
    }
  }

  /** While the frame's own bytes last, decoding does not look at what comes behind them. */
  lemma BodyIsLocal(lib: Library, name: string, keys: Keys, s: Source, rest: seq<ReadEvent>)
    requires AtHand(s, keys, HeaderSize(keys) - 11)
    ensures var (o, s') := DecodeBody(lib, name, s, keys);
      DecodeBody(lib, name, Source(s.buf, s.net + rest), keys) == (o, Source(s'.buf, s'.net + rest))
  {
    hide ReadFrom, SizeReader, Flatten, ReadSize, Unpack, AllZero;
    if keys.Encrypted() {
      SizeIsLocal(s, rest);
      SizeConserves(s);
    }
    var s1 := if keys.Encrypted() then ReadSize(s).1 else s;
    SizeIsLocal(s1, rest);
    SizeConserves(s1);
    var (size, s2) := ReadSize(s1);
    if |Stream(s2)| > 0 {
      StreamAtHand(s2);
    } else {
      assert Stream(s)[0..] == Stream(s);
      ZerosReadAsZero(s);
    }
    ReadIsLocal(s2.buf, s2.net, rest, size);
  }

  lemma StreamAtHand(s: Source)
    requires Stream(s) != []
    ensures s.buf != [] || s.net != []
  {
  }

  lemma TypedIsLocal(lib: Library, ident: IdentMap, keys: Keys, s: Source, rest: seq<ReadEvent>)
    requires AtHand(s, keys, HeaderSize(keys) - 7)
    ensures var (o, s') := DecodeTyped(lib, ident, s, keys);
      DecodeTyped(lib, ident, Source(s.buf, s.net + rest), keys) == (o, Source(s'.buf, s'.net + rest))
  {
    hide ReadSize, Stream, DecodeBody, AllZero;
    StreamNonEmpty(s);
    SizeIsLocal(s, rest);
    SizeConserves(s);
    var (id, s1) := ReadSize(s);
    if id in ident && ident[id].Some? {
      assert |Stream(s)| == 8 ==> Stream(s)[4..][0..] == Stream(s)[4..];
      BodyIsLocal(lib, ident[id].value.name, keys, s1, rest);
    }
  }

  lemma StreamNonEmpty(s: Source)
    requires |Stream(s)| > 0
    ensures Stream(s) != []
  {
  }

  lemma DecodeIsLocal(lib: Library, ident: IdentMap, keys: Keys, net: seq<ReadEvent>, rest: seq<ReadEvent>)
    requires AtHand(Source([], net), keys, HeaderSize(keys))
    ensures var (o, s) := Decode(lib, ident, Source([], net), keys);
      Decode(lib, ident, Source([], net + rest), keys) == (o, Source(s.buf, s.net + rest))
  {
    hide ReadFrom, Flatten, DecodeTyped, AllZero;
    var s := Source([], net);
    StreamAtHand(s);
    ReadIsLocal([], net, rest, PREAMBLE_SIZE);
    ReadConserves(s, PREAMBLE_SIZE);
    var (r, s1) := ReadFrom(s, PREAMBLE_SIZE);
    if r.Got? && Padded(r.data, PREAMBLE_SIZE) == PREAMBLE {
      ShortPreambleIsInvalid(r.data);
      assert Stream(s1) == Stream(s)[7..];
      assert |Stream(s)| == 15 ==> Stream(s)[7..][4..] == Stream(s)[11..];
      TypedIsLocal(lib, ident, keys, s1, rest);
    }
  }

  lemma FlattenTail(g: seq<ReadEvent>)
    requires g != [] && g[0].Data?
    ensures Flatten(g) == g[0].data + Flatten(g[1..])
  {
  }

  lemma ZeroIsNoPreamble(net: seq<ReadEvent>)
    requires net != [] && net[0].Data? && (net[0].data != [] ==> net[0].data[0] == 0)
    ensures var r := ReadFrom(Source([], net), PREAMBLE_SIZE).0;
      r.Got? && Padded(r.data, PREAMBLE_SIZE) != PREAMBLE
  {
    var r := ReadFrom(Source([], net), PREAMBLE_SIZE).0;
    ShortPreambleIsInvalid(r.data);
  }

  /** The decoder finds no message in leftovers that hold only zeros. */
  lemma ZerosHoldNoMessage(lib: Library, ident: IdentMap, keys: Keys, junk: seq<ReadEvent>, rest: seq<ReadEvent>)
    requires junk != [] && AllZero(Flatten(junk))
    ensures var (o, s) := Decode(lib, ident, Source([], junk + rest), keys);
      o == Failed || (o == EndOfStream && junk[0] == Fault(true) && s.net == junk[1..] + rest)
  {
    hide DecodeTyped, ReadFrom, Flatten, Padded;
    var net := junk + rest;
    assert net[0] == junk[0] && net[1..] == junk[1..] + rest;
    match junk[0] {
      case Data(d) =>
        FlattenTail(junk);
        assert d != [] ==> Flatten(junk)[0] == d[0];
        ZeroIsNoPreamble(net);
      case Fault(_) =>
        ReadsFault(net);
    }
  }

  lemma ReadsFault(net: seq<ReadEvent>)
    requires net != [] && net[0].Fault?
    ensures ReadFrom(Source([], net), PREAMBLE_SIZE) == (ReadFailed(net[0].eof), Source([], net[1..]))
  {
  }

  lemma {:induction false} ShiftedZeros(c: bytes, d: nat, i: nat)
    requires d > 0 && i < |c|
    requires forall j | 0 <= j < d && j < |c| :: c[j] == 0
    requires forall j | d <= j < |c| :: c[j] == c[j - d]
    ensures c[i] == 0
    decreases i
  {
    if i >= d {
      ShiftedZeros(c, d, i - d);
    }
  }

  /** A sealed payload read from `d` bytes too early equals itself only if it is all zeros. */
  lemma EarlyPayloadIsZero(frame: bytes, payload: bytes, k: nat, i: nat)
    requires k <= 4 && |frame| == 19 + |payload| && frame[19..] == payload
    requires frame[15..19] == SizeWriter(|payload|) && |payload| < TWO_TO_THE_32
    requires SizeReader(Padded(frame[15..15 + k], SIZE_WIDTH)) == |payload|
    requires frame[15 + k..15 + k + |payload|] == payload
    requires 15 + k + |payload| <= i < |frame|
    ensures frame[i] == 0
  {
    hide SizeReader, SizeWriter;
    var p := Padded(frame[15..15 + k], SIZE_WIDTH);
    SizeWriterInvertsReader(p);
    assert p == frame[15..19];
    var d := 4 - k;
    forall j | 0 <= j < d && j < |payload|
      ensures payload[j] == 0
    {
      assert payload[j] == frame[15 + k..15 + k + |payload|][j] == frame[15..19][k + j] == p[k + j];
    }
    forall j | d <= j < |payload|
      ensures payload[j] == payload[j - d]
    {
      assert payload[j] == frame[15 + k..15 + k + |payload|][j] == frame[19..][j - d];
    }
    if i >= 19 {
      assert frame[i] == payload[i - 19];
      ShiftedZeros(payload, d, i - 19);
    } else {
      assert frame[i] == frame[15..19][i - 15] == p[i - 15];
    }
  }

  /** What remains of a frame's own bytes once its message was delivered holds only zeros. */
  lemma SealedLeftover(lib: Library, inverse: map<string, nat>, ident: IdentMap, keys: Keys, m: Sent,
                       net: seq<ReadEvent>)
    requires Sound(lib) && keys.Encrypted() && LowBytes(ident) && Sendable(lib, inverse, ident, keys, m)
    requires OpensOnly(lib, keys.enc.value, Frame(lib, inverse, keys, m), Payload(lib, m, keys))
    requires Flatten(net) <= Frame(lib, inverse, keys, m)
    ensures var (o, s) := Decode(lib, ident, Source([], net), keys);
      o.Delivered? ==> AllZero(Flatten(s.net))
  {
    hide ReadFrom, SizeReader, SizeWriter, Flatten, DecodeBody, Decode, Payload, ReadSize, Frame, HeaderRest, OpensOnly;
    var frame := Frame(lib, inverse, keys, m);
    var payload := Payload(lib, m, keys);
    FrameShape(lib, inverse, ident, keys, m);
    var to := |Flatten(net)|;
    var s := Source([], net);
    assert Stream(s) == Flatten(net);
    if Decode(lib, ident, s, keys).0.Delivered? {
      TypeIsRight(lib, ident, keys, inverse[m.msg.name], HeaderRest(m, keys, payload) + payload, s);
      assert Stream(AfterType(s)) == frame[11..to];
      SealedBodyLeftover(lib, keys, m, frame, AfterType(s), to);
    }
  }

  lemma SealedBodyLeftover(lib: Library, keys: Keys, m: Sent, frame: bytes, s: Source, to: nat)
    requires Sound(lib) && keys.Encrypted() && lib.marshal(m.msg) == Some(m.raw) && |m.nonce| == NONCE_SIZE
    requires var payload := Payload(lib, m, keys);
      && OpensOnly(lib, keys.enc.value, frame, payload) && |payload| < TWO_TO_THE_32
      && |frame| == 19 + |payload| && frame[15..19] == SizeWriter(|payload|) && frame[19..] == payload
    requires 11 <= to <= |frame| && Stream(s) == frame[11..to]
    requires DecodeBody(lib, m.msg.name, s, keys).0.Delivered?
    ensures AllZero(Flatten(DecodeBody(lib, m.msg.name, s, keys).1.net))
  {
    hide ReadFrom, SizeReader, SizeWriter, Flatten, DecodeBody, Payload, ReadSize, OpensOnly, AllZero;
    var payload := Payload(lib, m, keys);
    SealedBodyIsRight(lib, keys, m, frame, s, 11, to);
    SizeTakes(s, frame, 11, to);
    var s1 := ReadSize(s).1;
    SizeTakes(s1, frame, 15, to);
    var k := SizeStep(s1);
    var s2 := ReadSize(s1).1;
    ReadTakes(s2, |payload|, frame, 15 + k, to);
    LeftoverIsZero(frame, payload, k, ReadFrom(s2, |payload|).1, to);
  }

  lemma LeftoverIsZero(frame: bytes, payload: bytes, k: nat, s: Source, to: nat)
    requires k <= 4 && |frame| == 19 + |payload| && frame[19..] == payload
    requires frame[15..19] == SizeWriter(|payload|) && |payload| < TWO_TO_THE_32
    requires SizeReader(Padded(frame[15..15 + k], SIZE_WIDTH)) == |payload|
    requires frame[15 + k..15 + k + |payload|] == payload
    requires 15 + k + |payload| <= to <= |frame| && Stream(s) == frame[15 + k + |payload|..to]
    ensures AllZero(Flatten(s.net))
  {
    hide SizeReader, SizeWriter, Flatten;
    forall i | 0 <= i < |Flatten(s.net)|
      ensures Flatten(s.net)[i] == 0
    {
      var j := |s.buf| + i;
      assert Stream(s)[j] == Flatten(s.net)[i];
      EarlyPayloadIsZero(frame, payload, k, 15 + k + |payload| + j);
    }
  }

  lemma PlainLeftover(lib: Library, inverse: map<string, nat>, ident: IdentMap, keys: Keys, m: Sent,
                      net: seq<ReadEvent>)
    requires Sound(lib) && !keys.Encrypted() && LowBytes(ident) && Sendable(lib, inverse, ident, keys, m)
    requires Flatten(net) <= Frame(lib, inverse, keys, m) && !CutInSize(net)
    ensures var (o, s) := Decode(lib, ident, Source([], net), keys);
      o.Delivered? ==> Flatten(s.net) == [] && AllZero(Flatten(s.net))
  {
    hide ReadFrom, SizeReader, SizeWriter, Flatten, Decode, DecodeBody, ReadSize, Payload, Frame, HeaderRest, WholeIn;
    var s := Source([], net);
    if Decode(lib, ident, s, keys).0.Delivered? {
      var frame := Frame(lib, inverse, keys, m);
      var tail := SizeWriter(|m.raw|) + m.raw;
      var to := |Flatten(net)|;
      FrameShape(lib, inverse, ident, keys, m);
      PlainSize(lib, ident, keys, inverse[m.msg.name], tail, net);
      assert Stream(s) == Flatten(net);
      TypeIsRight(lib, ident, keys, inverse[m.msg.name], tail, s);
      var s0 := AfterType(s);
      assert Stream(s0) == frame[11..to];
      WholeSizeDelivers(lib, keys, m, frame, s0, to);
      SizeTakes(s0, frame, 11, to);
      ReadTakes(ReadSize(s0).1, |m.raw|, frame, 15, to);
      assert Stream(DecodeBody(lib, m.msg.name, s0, keys).1) == [];
    }
  }

  lemma AfterNoEnds(g: seq<ReadEvent>)
    ensures CutInSize(g) ==> AfterEnds(g) == g
  {
  }

  /** A frame without a payload delivers its message however its size field is cut. */
  lemma EmptyPayloadCut(lib: Library, inverse: map<string, nat>, ident: IdentMap, keys: Keys, m: Sent,
                        net: seq<ReadEvent>)
    requires Sound(lib) && !keys.Encrypted() && Sendable(lib, inverse, ident, keys, m) && m.raw == []
    requires Flatten(net) <= Frame(lib, inverse, keys, m) && CutInSize(net)
    ensures var (o, s) := Decode(lib, ident, Source([], net), keys);
      o == Delivered(m.msg) && AllZero(Flatten(s.net))
  {
    hide ReadFrom, SizeReader, SizeWriter, Flatten, Decode, ReadSize, Payload, Frame, HeaderRest, WholeIn;
    var frame := Frame(lib, inverse, keys, m);
    FrameShape(lib, inverse, ident, keys, m);
    ZeroSizeWritten();
    CutSizeDeliversBlank(lib, inverse, ident, keys, m, m.msg, net);
    var k := CutSizeSeen(lib, inverse, ident, keys, m, net);
    var (size, s1) := ReadSize(AfterType(Source([], net)));
    var to := |Flatten(net)|;
    assert Padded(SizeWriter(0)[..k], SIZE_WIDTH) == Zeros(SIZE_WIDTH);
    ZerosReadZero();
    ReadsNothing(s1);
    forall i | 0 <= i < |Flatten(s1.net)|
      ensures Flatten(s1.net)[i] == 0
    {
      var j := |s1.buf| + i;
      assert Stream(s1)[j] == Flatten(s1.net)[i];
      assert frame[11 + k..to][j] == frame[11..15][k + j];
    }
  }

  lemma ZerosReadZero()
    ensures SizeReader(Zeros(SIZE_WIDTH)) == 0
  {
  }

  lemma ReadsNothing(s: Source)
    ensures ReadFrom(s, 0) == (Got([]), s)
  {
  }

  /** A pass over a plain frame whose arrivals are trusted. */
  lemma PlainPass(lib: Library, inverse: map<string, nat>, ident: IdentMap, keys: Keys, m: Sent, g: seq<ReadEvent>)
    requires Sound(lib) && !keys.Encrypted() && LowBytes(ident)
    requires Sendable(lib, inverse, ident, keys, m) && Trusted(lib, inverse, keys, m, g)
    requires Flatten(g) <= Frame(lib, inverse, keys, m)
    ensures var (o, s) := Decode(lib, ident, Source([], g), keys);
      || o == Failed
      || (o == EndOfStream && (g == [] || g[0] == Fault(true)))
      || (o == Delivered(m.msg) && AllZero(Flatten(s.net)))
  {
    hide ReadFrom, SizeReader, SizeWriter, DecodeBody, Decode, Payload, Frame, HeaderRest, WholeIn, AllZero;
    hide SizeFieldRefused, SizeSeenAsZero;
    NilPairMeansEnd(lib, ident, keys, g);
    AfterNoEnds(g);
    if !CutInSize(g) {
      PlainFailSafe(lib, inverse, ident, keys, m, g);
      PlainLeftover(lib, inverse, ident, keys, m, g);
    } else if m.raw == [] {
      EmptyPayloadCut(lib, inverse, ident, keys, m, g);
    } else if Decode(lib, ident, Source([], g), keys).0.Delivered? {
      CutSizeNeedsZeros(lib, inverse, ident, keys, m, g);
    }
  }

  /** One pass over the arrivals of one frame: an error, another pass, or exactly its message,
      with nothing but zeros of the frame left on the connection. */
  lemma Iteration(lib: Library, inverse: map<string, nat>, ident: IdentMap, keys: Keys, m: Sent,
                  g: seq<ReadEvent>, rest: seq<ReadEvent>)
    returns (junk: seq<ReadEvent>)
    requires Sound(lib) && LowBytes(ident)
    requires Sendable(lib, inverse, ident, keys, m) && Trusted(lib, inverse, keys, m, g)
    requires if rest == [] then Flatten(g) <= Frame(lib, inverse, keys, m)
             else Flatten(g) == Frame(lib, inverse, keys, m)
    ensures var (o, s) := Decode(lib, ident, Source([], g + rest), keys);
      || o == Failed
      || (o == EndOfStream && g != [] && g[0] == Fault(true) && s.net == g[1..] + rest)
      || (o == EndOfStream && g == rest == s.net == [])
      || (o == Delivered(m.msg) && s.net == junk + rest && AllZero(Flatten(junk)))
  {
    hide ReadFrom, SizeReader, SizeWriter, DecodeBody, Decode, Payload, Frame, HeaderRest, WholeIn, AllZero;
    var (o, s) := Decode(lib, ident, Source([], g), keys);
    junk := s.net;
    FrameShape(lib, inverse, ident, keys, m);
    if keys.Encrypted() {
      EncryptedFailSafe(lib, inverse, ident, keys, m, g);
      SealedLeftover(lib, inverse, ident, keys, m, g);
    } else {
      PlainPass(lib, inverse, ident, keys, m, g);
    }
    if o.EndOfStream? {
      EndTakesOneEvent(lib, ident, keys, g);
    }
    if rest == [] {
      assert g + rest == g && s.net + rest == s.net;
      if g != [] {
        assert g[1..] + rest == g[1..];
      }
    } else {
      Locality(lib, inverse, ident, keys, m, g, rest);
    }
  }

  lemma EndTakesOneEvent(lib: Library, ident: IdentMap, keys: Keys, net: seq<ReadEvent>)
    requires net == [] || net[0] == Fault(true)
    ensures Decode(lib, ident, Source([], net), keys) == (EndOfStream, Source([], if net == [] then [] else net[1..]))
  {
  }

  lemma ZeroSizeWritten()
    ensures AllZero(SizeWriter(0))
  {
  }

  lemma Locality(lib: Library, inverse: map<string, nat>, ident: IdentMap, keys: Keys, m: Sent,
                 g: seq<ReadEvent>, rest: seq<ReadEvent>)
    requires Sound(lib) && Sendable(lib, inverse, ident, keys, m)
    requires Flatten(g) == Frame(lib, inverse, keys, m)
    ensures var (o, s) := Decode(lib, ident, Source([], g), keys);
      var (o', s') := Decode(lib, ident, Source([], g + rest), keys);
      o' == o && s'.net == s.net + rest
  {
    hide ReadFrom, SizeReader, SizeWriter, Decode, Frame, Payload, HeaderRest, Flatten;
    FrameShape(lib, inverse, ident, keys, m);
    assert Stream(Source([], g)) == Flatten(g);
    if |Payload(lib, m, keys)| == 0 {
      ZeroSizeWritten();
      assert Flatten(g)[11..] == Flatten(g)[11..15];
    }
    DecodeIsLocal(lib, ident, keys, g, rest);
  }

  /** A frame that arrives at once, within the reader's buffer, is delivered. */
  lemma DecodesArrival(lib: Library, inverse: map<string, nat>, ident: IdentMap, keys: Keys, m: Sent,
                       rest: seq<ReadEvent>)
    requires Sound(lib) && Sendable(lib, inverse, ident, keys, m)
    requires |Frame(lib, inverse, keys, m)| <= BUFFER_SIZE
    ensures Decode(lib, ident, Source([], [Data(Frame(lib, inverse, keys, m))] + rest), keys)
        == (Delivered(m.msg), Source([], rest))
  {
    hide DecodeTyped, Payload, HeaderRest, ReadFrom;
    var frame := Frame(lib, inverse, keys, m);
    FrameShape(lib, inverse, ident, keys, m);
    DecodesFrame(lib, inverse, ident, keys, m, [], rest);
    assert frame + [] == frame;
    BufferedFirst(frame, rest);
  }

  lemma BufferedFirst(d: bytes, rest: seq<ReadEvent>)
    requires PREAMBLE_SIZE <= |d|
    ensures var net := [Data(d)] + rest;
      ReadFrom(Source([], net), PREAMBLE_SIZE)
        == if |d| <= BUFFER_SIZE then ReadFrom(Source(d, rest), PREAMBLE_SIZE)
           else ReadFrom(Source(d[..BUFFER_SIZE], [Data(d[BUFFER_SIZE..])] + rest), PREAMBLE_SIZE)
  {
  }

  /** Exactly the frames that fit the reader's buffer survive arriving at once: the read of a
      larger payload stops at the end of the buffer. */
  lemma OneArrivalDecodesIff(lib: Library, inverse: map<string, nat>, ident: IdentMap, keys: Keys, m: Sent,
                             rest: seq<ReadEvent>)
    requires Sound(lib) && Sendable(lib, inverse, ident, keys, m)
    ensures var frame := Frame(lib, inverse, keys, m);
      Decode(lib, ident, Source([], [Data(frame)] + rest), keys).0
          == (if |frame| <= BUFFER_SIZE then Delivered(m.msg) else Failed)
  {
    var frame := Frame(lib, inverse, keys, m);
    if |frame| <= BUFFER_SIZE {
      DecodesArrival(lib, inverse, ident, keys, m, rest);
    } else {
      hide SizeReader, SizeWriter, DecodeBody, Payload, ReadSize;
      var payload := Payload(lib, m, keys);
      var id := inverse[m.msg.name];
      FrameIsEncoded(lib, inverse, ident, keys, m);
      BufferedFirst(frame, rest);
      var all := HeaderRest(m, keys, payload) + payload;
      var part := payload[..BUFFER_SIZE - HeaderSize(keys)];
      var tail := HeaderRest(m, keys, payload) + part;
      assert frame == PREAMBLE + (SizeWriter(id) + all);
      assert frame[..BUFFER_SIZE] == PREAMBLE + (SizeWriter(id) + tail);
      var net := [Data(frame[BUFFER_SIZE..])] + rest;
      DecodesType(lib, ident, keys, id, tail, net);
      PartialPayloadFails(lib, m, payload, part, net, keys);
    }
  }

  lemma PartialPayloadFails(lib: Library, m: Sent, payload: bytes, part: bytes, net: seq<ReadEvent>, keys: Keys)
    requires part != [] && |part| < |payload| < TWO_TO_THE_32
    ensures DecodeBody(lib, m.msg.name, Source(HeaderRest(m, keys, payload) + part, net), keys).0 == Failed
  {
    hide SizeReader, SizeWriter, Unpack, ReadSize;
    var tail := SizeWriter(|payload|) + part;
    if keys.Encrypted() {
      assert HeaderRest(m, keys, payload) + part == SizeWriter(MAC_SIZE) + tail;
      ReadsSize(MAC_SIZE, tail, net);
    } else {
      assert HeaderRest(m, keys, payload) + part == tail;
    }
    ReadsSize(|payload|, part, net);
  }

  /** Whatever the timing, the loop delivers a prefix of the messages sent. */
  lemma {:induction false} DeliversPrefix(lib: Library, inverse: map<string, nat>, ident: IdentMap, keys: Keys,
                                          ms: seq<Sent>, arrivals: seq<seq<ReadEvent>>,
                                          junk: seq<ReadEvent>, ticks: nat)
    requires Sound(lib) && LowBytes(ident) && AllSendable(lib, inverse, ident, keys, ms)
    requires Arrives(lib, inverse, keys, ms, arrivals) && AllZero(Flatten(junk))
    ensures ReceiveTicks(lib, ident, keys, junk + Join(arrivals), ticks) <= Messages(ms)
    decreases ticks
  {
    hide Decode, Trusted, Sendable, AllSendable, Frame, Flatten, AllZero;
    var net := junk + Join(arrivals);
    if ticks == 0 {
    } else if junk != [] {
      ZerosHoldNoMessage(lib, ident, keys, junk, Join(arrivals));
      if Decode(lib, ident, Source([], net), keys).0.EndOfStream? {
        DropFault(junk);
        DeliversPrefix(lib, inverse, ident, keys, ms, arrivals, junk[1..], ticks - 1);
      }
    } else if arrivals == [] {
      EndTakesOneEvent(lib, ident, keys, net);
      DeliversPrefix(lib, inverse, ident, keys, ms, arrivals, junk, ticks - 1);
    } else {
      var g, rest := arrivals[0], Join(arrivals[1..]);
      assert net == g + rest;
      SendableTail(lib, inverse, ident, keys, ms);
      SplitArrivals(lib, inverse, keys, ms, arrivals);
      var junk' := Iteration(lib, inverse, ident, keys, ms[0], g, rest);
      var (o, s) := Decode(lib, ident, Source([], net), keys);
      if o.Delivered? {
        DeliversPrefix(lib, inverse, ident, keys, ms[1..], arrivals[1..], junk', ticks - 1);
      } else if o.EndOfStream? {
        if g == [] {
          assert s.net == junk + Join([]);
          DeliversPrefix(lib, inverse, ident, keys, ms, [], junk, ticks - 1);
        } else {
          var arrivals' := WithoutFault(lib, inverse, keys, ms, arrivals);
          assert s.net == junk + Join(arrivals');
          DeliversPrefix(lib, inverse, ident, keys, ms, arrivals', junk, ticks - 1);
        }
      }
    }
  }

  /** And the one case that is not trusted breaks the prefix: a frame with a payload, whose size field
      is the first to be cut, after nothing but zeros, makes the loop deliver an empty message. */
  lemma {:induction false} CutSizeBreaksThePrefix(lib: Library, inverse: map<string, nat>, ident: IdentMap, keys: Keys,
                                                  m: Sent, blank: Message, g: seq<ReadEvent>)
    requires Sound(lib) && !keys.Encrypted() && Sendable(lib, inverse, ident, keys, m)
    requires lib.unmarshal(m.msg.name, []) == Some(blank) && lib.marshal(blank) == Some([])
    requires Flatten(g) <= Frame(lib, inverse, keys, m) && m.raw != []
    requires CutInSize(AfterEnds(g)) && SizeSeenAsZero(m, AfterEnds(g))
    ensures blank != m.msg && |AfterEnds(g)| <= |g|
    ensures ReceiveTicks(lib, ident, keys, g, |g| - |AfterEnds(g)| + 1) == [blank]
    decreases |g|
  {
    hide Decode, WholeIn, SizeSeenAsZero, Frame;
    if g != [] && g[0] == Fault(true) {
      DropFault(g);
      CutSizeBreaksThePrefix(lib, inverse, ident, keys, m, blank, g[1..]);
      EndTakesOneEvent(lib, ident, keys, g);
    } else {
      CutSizeDeliversBlank(lib, inverse, ident, keys, m, blank, g);
    }
  }

  lemma SplitArrivals(lib: Library, inverse: map<string, nat>, keys: Keys, ms: seq<Sent>, arrivals: seq<seq<ReadEvent>>)
    requires Arrives(lib, inverse, keys, ms, arrivals) && arrivals != []
    ensures ms != [] && Trusted(lib, inverse, keys, ms[0], arrivals[0])
        && Arrives(lib, inverse, keys, ms[1..], arrivals[1..])
    ensures if Join(arrivals[1..]) == [] then Flatten(arrivals[0]) <= Frame(lib, inverse, keys, ms[0])
            else Flatten(arrivals[0]) == Frame(lib, inverse, keys, ms[0])
  {
  }

  lemma WithoutFault(lib: Library, inverse: map<string, nat>, keys: Keys, ms: seq<Sent>, arrivals: seq<seq<ReadEvent>>)
    returns (rest: seq<seq<ReadEvent>>)
    requires Arrives(lib, inverse, keys, ms, arrivals)
    requires arrivals != [] && arrivals[0] != [] && arrivals[0][0] == Fault(true)
    ensures Arrives(lib, inverse, keys, ms, rest) && Join(rest) == arrivals[0][1..] + Join(arrivals[1..])
  {
    hide Frame, OpensOnly;
    DropFault(arrivals[0]);
    rest := [arrivals[0][1..]] + arrivals[1..];
    assert rest[1..] == arrivals[1..];
  }

  lemma DropFault(g: seq<ReadEvent>)
    requires g != [] && g[0].Fault?
    ensures Flatten(g[1..]) == Flatten(g)
  {
  }

  /** Each frame in one arrival of its own. */
  function OneByOne(frames: seq<bytes>): seq<ReadEvent> {
    if frames == [] then [] else [Data(frames[0])] + OneByOne(frames[1..])
  }

  /** How many messages come before the first whose frame exceeds the reader's buffer. */
  function Fitting(lib: Library, inverse: map<string, nat>, keys: Keys, ms: seq<Sent>): (k: nat)
    requires forall i | 0 <= i < |ms| :: ms[i].msg.name in inverse
    ensures k <= |ms|
    ensures forall i | 0 <= i < k :: |Frame(lib, inverse, keys, ms[i])| <= BUFFER_SIZE
    ensures k < |ms| ==> |Frame(lib, inverse, keys, ms[k])| > BUFFER_SIZE
  {
    hide Frame;
    if ms == [] || |Frame(lib, inverse, keys, ms[0])| > BUFFER_SIZE then 0
    else 1 + Fitting(lib, inverse, keys, ms[1..])
  }

  lemma NamesKnown(lib: Library, inverse: map<string, nat>, ident: IdentMap, keys: Keys, ms: seq<Sent>)
    requires AllSendable(lib, inverse, ident, keys, ms)
    ensures forall i | 0 <= i < |ms| :: ms[i].msg.name in inverse
  {
  }

  /** When every frame comes in one arrival of its own, exactly the messages before the first frame
      larger than the buffer are delivered: all of them if every frame fits. */
  lemma {:induction false} DeliversTheFittingFront(lib: Library, inverse: map<string, nat>, ident: IdentMap,
                                                   keys: Keys, ms: seq<Sent>, ticks: nat)
    requires Sound(lib) && AllSendable(lib, inverse, ident, keys, ms) && ticks >= |ms|
    ensures ReceiveTicks(lib, ident, keys, OneByOne(Encodings(lib, inverse, keys, ms)), ticks)
      == Messages(ms[..Fitting(lib, inverse, keys, ms)])
    decreases ticks
  {
    hide Decode, Sendable, Frame, AllSendable;
    NamesKnown(lib, inverse, ident, keys, ms);
    var net := OneByOne(Encodings(lib, inverse, keys, ms));
    var k := Fitting(lib, inverse, keys, ms);
    if ms != [] {
      SendableTail(lib, inverse, ident, keys, ms);
      var rest := OneByOne(Encodings(lib, inverse, keys, ms[1..]));
      OneArrivalDecodesIff(lib, inverse, ident, keys, ms[0], rest);
      if k > 0 {
        DecodesArrival(lib, inverse, ident, keys, ms[0], rest);
        DeliversTheFittingFront(lib, inverse, ident, keys, ms[1..], ticks - 1);
        assert ms[..k][1..] == ms[1..][..k - 1];
      }
    } else if ticks > 0 {
      EndTakesOneEvent(lib, ident, keys, net);
      DeliversTheFittingFront(lib, inverse, ident, keys, ms, ticks - 1);
    }
  }

  /** An arrival that spans two frames costs the second one: what the reader had buffered of it is
      dropped with the reader. */
  lemma CoalescedFrameIsLost(lib: Library, inverse: map<string, nat>, ident: IdentMap, keys: Keys, m: Sent,
                             next: bytes, rest: seq<ReadEvent>, ticks: nat)
    requires Sound(lib) && Sendable(lib, inverse, ident, keys, m) && ticks > 0
    requires |Frame(lib, inverse, keys, m) + next| <= BUFFER_SIZE
    ensures ReceiveTicks(lib, ident, keys, [Data(Frame(lib, inverse, keys, m) + next)] + rest, ticks)
      == [m.msg] + ReceiveTicks(lib, ident, keys, rest, ticks - 1)
  {
    hide DecodeTyped, Payload, HeaderRest, ReadFrom;
    FrameShape(lib, inverse, ident, keys, m);
    DecodesFrame(lib, inverse, ident, keys, m, next, rest);
    BufferedFirst(Frame(lib, inverse, keys, m) + next, rest);
  }

  /** Arrivals that each hold a frame and, within the reader's buffer, anything behind it. */
  function Batches(frames: seq<bytes>, behind: seq<bytes>): seq<ReadEvent>
    requires |frames| == |behind|
  {
    if frames == [] then [] else [Data(frames[0] + behind[0])] + Batches(frames[1..], behind[1..])
  }

  /** Of such arrivals, whatever further frames they hold, exactly the first message of each is
      delivered. */
  lemma {:induction false} OnlyTheFirstOfEach(lib: Library, inverse: map<string, nat>, ident: IdentMap, keys: Keys,
                                              ms: seq<Sent>, behind: seq<bytes>, ticks: nat)
    requires Sound(lib) && AllSendable(lib, inverse, ident, keys, ms) && |behind| == |ms| <= ticks
    requires forall i | 0 <= i < |ms| :: |Frame(lib, inverse, keys, ms[i]) + behind[i]| <= BUFFER_SIZE
    ensures |Encodings(lib, inverse, keys, ms)| == |ms|
    ensures ReceiveTicks(lib, ident, keys, Batches(Encodings(lib, inverse, keys, ms), behind), ticks) == Messages(ms)
    decreases ticks
  {
    hide Decode, Sendable, Frame, AllSendable;
    NamesKnown(lib, inverse, ident, keys, ms);
    if ms != [] {
      SendableTail(lib, inverse, ident, keys, ms);
      assert forall i | 0 <= i < |ms[1..]| :: ms[1..][i] == ms[i + 1] && behind[1..][i] == behind[i + 1];
      OnlyTheFirstOfEach(lib, inverse, ident, keys, ms[1..], behind[1..], ticks - 1);
      var rest := Batches(Encodings(lib, inverse, keys, ms[1..]), behind[1..]);
      CoalescedFrameIsLost(lib, inverse, ident, keys, ms[0], behind[0], rest, ticks);
    } else if ticks > 0 {
      EndTakesOneEvent(lib, ident, keys, []);
      OnlyTheFirstOfEach(lib, inverse, ident, keys, ms, behind, ticks - 1);
    }
  }
}
