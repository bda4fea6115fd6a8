/** The websocket transport: the whole message is there at once and is cut up by slicing. */
module Websocket {
  import opened Bytes
  import opened Frames
  import opened Network
  import opened StreamDecoder
  import opened Fragmentation

  /** What one read of the websocket yields. */
  datatype WsRead = Binary(buffer: bytes) | CloseMessage | OtherRead

  /** Slices beyond the buffer panic and are recovered; so is unmarshalling into the nil clone of
      an id that is unknown or has the nil prototype. */
  function DecodeBuffer(lib: Library, ident: IdentMap, buffer: bytes): Outcome {
    if |buffer| < PREAMBLE_SIZE || buffer[..PREAMBLE_SIZE] != PREAMBLE then Failed
    else if |buffer| < 15 then Failed
    else
      var id := SizeReader(buffer[7..11]);
      var size := SizeReader(buffer[11..15]);
      var value := buffer[15..];
      if |value| != size then Failed
      else if id !in ident || ident[id].None? then Failed
      else match lib.unmarshal(ident[id].value.name, value)
        case None => Failed
        case Some(m) => Delivered(m)
  }

  function DecodeWs(lib: Library, ident: IdentMap, read: WsRead): Outcome {
    match read
    case CloseMessage => Failed
    case OtherRead => EndOfStream
    case Binary(buffer) => DecodeBuffer(lib, ident, buffer)
  }

  /** Only a read of another kind is passed over: whatever is wrong with a binary message is an error,
      as is a close message. */
  lemma OnlyOtherReadsArePassedOver(lib: Library, ident: IdentMap, read: WsRead)
    ensures DecodeWs(lib, ident, read).EndOfStream? <==> read.OtherRead?
    ensures read.CloseMessage? ==> DecodeWs(lib, ident, read).Failed?
  {
  }

  const PLAIN := Keys(None, None)

  /** What the sender of the websocket transport writes; there is no encryption here. */
  method PutMessageInConnectionWs(conn: Sink, lib: Library, inverse: map<string, nat>, m: Message, accepted: nat)
    returns (ok: bool)
    modifies conn
    ensures ok == PutSucceeds(FrameOf(lib, inverse, m, PLAIN, []), accepted)
    ensures conn.written == old(conn.written) + PutBytes(FrameOf(lib, inverse, m, PLAIN, []), accepted)
    ensures m.name !in inverse || lib.marshal(m).None? ==> !ok && conn.written == old(conn.written)
  {
    if m.name !in inverse || lib.marshal(m).None? {
      return false;
    }
    var v := lib.marshal(m).value;
    var bigBytes := PREAMBLE + SizeWriter(inverse[m.name]);
    bigBytes := bigBytes + SizeWriter(|v|);
    bigBytes := bigBytes + v;
    var r := conn.Write(bigBytes, accepted);
    ok := r.Written?;
  }

  /** The stream decoder over a reader that holds a size field and then `value`. */
  lemma FullBody(lib: Library, name: string, size: bytes, value: bytes)
    requires |size| == SIZE_WIDTH
    ensures var n := SizeReader(size);
      var (o, s) := DecodeBody(lib, name, Source(size + value, []), PLAIN);
      if n < |value| then s.buf != []
      else if n > |value| then o == Failed
      else
        && s == Source([], [])
        && o == (match lib.unmarshal(name, value) case None => Failed case Some(m) => Delivered(m))
  {
    hide SizeReader;
    var n := SizeReader(size);
    ReadsField(size, value, []);
    assert Padded(size, SIZE_WIDTH) == size;
    if n <= |value| {
      ReadsField(value[..n], value[n..], []);
      assert value == value[..n] + value[n..];
      if n == |value| {
        assert value[..n] == value;
      }
    }
  }

  lemma FullHeader(lib: Library, ident: IdentMap, b: bytes)
    requires |b| >= 15
    ensures var id := SizeReader(b[7..11]);
      Decode(lib, ident, Source(b, []), PLAIN)
        == if b[..7] != PREAMBLE then (Failed, Source(b[7..], []))
           else if id !in ident || ident[id].None? then (Failed, Source(b[11..], []))
           else DecodeBody(lib, ident[id].value.name, Source(b[11..], []), PLAIN)
  {
    hide SizeReader, DecodeBody;
    ReadsField(b[..7], b[7..], []);
    assert b == b[..7] + b[7..] && Padded(b[..7], 7) == b[..7];
    ReadsField(b[7..11], b[11..], []);
    assert b[7..] == b[7..11] + b[11..] && Padded(b[7..11], SIZE_WIDTH) == b[7..11];
  }

  /** The two decoders agree: the websocket one delivers a message exactly when the stream one
      delivers it and uses up the whole string, which must hold a full header. */
  lemma DecodersAgree(lib: Library, ident: IdentMap, b: bytes, m: Message)
    ensures DecodeBuffer(lib, ident, b) == Delivered(m)
      <==> (|b| >= 15 && Decode(lib, ident, Source(b, []), PLAIN) == (Delivered(m), Source([], [])))
  {
    hide SizeReader, Decode, DecodeBody;
    if |b| >= 15 {
      FullHeader(lib, ident, b);
      var id := SizeReader(b[7..11]);
      if id in ident && ident[id].Some? {
        FullBody(lib, ident[id].value.name, b[11..15], b[15..]);
        assert b[11..] == b[11..15] + b[15..];
      }
    }
  }

  /** Below fifteen bytes they part.  To the websocket decoder such a string is never a message; to the
      stream decoder it is one, an empty one, if and only if it ends inside the size field after nothing
      but zeros, behind a header the receiver knows. */
  lemma ShortStringsDisagree(lib: Library, ident: IdentMap, b: bytes)
    requires LowBytes(ident) && |b| < 15
    ensures DecodeBuffer(lib, ident, b) == Failed
    ensures Decode(lib, ident, Source(b, []), PLAIN).0.Delivered? <==>
      && |b| >= 11 && b[..7] == PREAMBLE
      && var id := SizeReader(b[7..11]);
        id in ident && ident[id].Some? && AllZero(b[11..]) && lib.unmarshal(ident[id].value.name, []).Some?
  {
    hide SizeReader, DecodeBody, AllZero;
    if |b| >= 11 {
      ReadsField(b[..7], b[7..], []);
      assert b == b[..7] + b[7..] && Padded(b[..7], 7) == b[..7];
      ReadsField(b[7..11], b[11..], []);
      assert b[7..] == b[7..11] + b[11..] && Padded(b[7..11], SIZE_WIDTH) == b[7..11];
      var id := SizeReader(b[7..11]);
      if id in ident && ident[id].Some? {
        ShortBody(lib, ident[id].value.name, b[11..]);
      }
    } else {
      ShortHeader(lib, ident, b);
    }
  }

  /** A string that ends before the type field does holds no message: a type cut short is unknown. */
  lemma ShortHeader(lib: Library, ident: IdentMap, b: bytes)
    requires LowBytes(ident) && |b| < 11
    ensures !Decode(lib, ident, Source(b, []), PLAIN).0.Delivered?
  {
    hide DecodeTyped, LowBytes;
    if |b| >= 7 {
      ReadsField(b[..7], b[7..], []);
      assert b == b[..7] + b[7..];
      ShortType(lib, ident, b[7..]);
    } else {
      ShortPreamble(lib, ident, b);
    }
  }

  lemma ShortPreamble(lib: Library, ident: IdentMap, b: bytes)
    requires |b| < 7
    ensures !Decode(lib, ident, Source(b, []), PLAIN).0.Delivered?
  {
    hide DecodeTyped;
    if b != [] {
      ShortPreambleIsInvalid(b);
      assert b[..|b|] == b;
    }
  }

  lemma ShortType(lib: Library, ident: IdentMap, b: bytes)
    requires LowBytes(ident) && |b| < SIZE_WIDTH
    ensures !DecodeTyped(lib, ident, Source(b, []), PLAIN).0.Delivered?
  {
    hide ReadSize, ReadFrom, SizeReader, DecodeBody;
    var s := Source(b, []);
    assert Stream(s) == b[0..|b|];
    SizeTakes(s, b, 0, |b|);
  }

  lemma ShortBody(lib: Library, name: string, b: bytes)
    requires |b| < SIZE_WIDTH
    ensures DecodeBody(lib, name, Source(b, []), PLAIN).0.Delivered? <==> AllZero(b) && lib.unmarshal(name, []).Some?
  {
    if lib.unmarshal(name, []).Some? {
      CutSizeOutcome(lib, name, b, PLAIN);
    }
  }

  /** What the websocket sender writes, the websocket receiver reads back. */
  lemma WsRoundTrip(lib: Library, inverse: map<string, nat>, ident: IdentMap, m: Sent)
    requires Sound(lib) && Sendable(lib, inverse, ident, PLAIN, m)
    ensures var f := FrameOf(lib, inverse, m.msg, PLAIN, []);
      f.Some? && DecodeWs(lib, ident, Binary(f.value)) == Delivered(m.msg)
  {
    hide Decode, DecodeBuffer;
    FrameIsEncoded(lib, inverse, ident, PLAIN, m);
    var frame := Frame(lib, inverse, PLAIN, m);
    DecodesFrame(lib, inverse, ident, PLAIN, m, [], []);
    assert frame + [] == frame;
    DecodersAgree(lib, ident, frame, m.msg);
  }

  /** What the receive service hands on: an error ends it, a read that is no message is passed over. */
  function ReceiveWs(lib: Library, ident: IdentMap, incoming: seq<WsRead>): seq<Message> {
    if incoming == [] then []
    else match DecodeWs(lib, ident, incoming[0])
      case Failed => []
      case EndOfStream => ReceiveWs(lib, ident, incoming[1..])
      case Delivered(m) => [m] + ReceiveWs(lib, ident, incoming[1..])
  }

  method StartServiceReceiverWs(incoming: seq<WsRead>, lib: Library, ident: IdentMap) returns (delivered: seq<Message>)
    ensures delivered == ReceiveWs(lib, ident, incoming)
  {
    delivered := [];
    for i := 0 to |incoming|
      invariant delivered + ReceiveWs(lib, ident, incoming[i..]) == ReceiveWs(lib, ident, incoming)
    {
      assert incoming[i..][1..] == incoming[i + 1..];
      match DecodeWs(lib, ident, incoming[i])
      case Failed => return;
      case EndOfStream =>
      case Delivered(m) => delivered := delivered + [m];
    }
  }

  /** What a peer puts on a websocket: frames of messages, and incoming that carry none. */
  datatype Item = Carrying(m: Sent) | Passing

  ghost predicate AllCarried(lib: Library, inverse: map<string, nat>, ident: IdentMap, items: seq<Item>) {
    forall i | 0 <= i < |items| && items[i].Carrying? ::
      items[i].m.msg.name in inverse && Sendable(lib, inverse, ident, PLAIN, items[i].m)
  }

  function ReadsOf(lib: Library, inverse: map<string, nat>, items: seq<Item>): seq<WsRead>
    requires forall i | 0 <= i < |items| && items[i].Carrying? :: items[i].m.msg.name in inverse
  {
    if items == [] then []
    else [if items[0].Passing? then OtherRead else Binary(Frame(lib, inverse, PLAIN, items[0].m))]
         + ReadsOf(lib, inverse, items[1..])
  }

  function CarriedBy(items: seq<Item>): seq<Message> {
    if items == [] then []
    else (if items[0].Passing? then [] else [items[0].m.msg]) + CarriedBy(items[1..])
  }

  /** The service delivers every binary message in order, passes over every other read, and ends at
      the close message, whatever comes behind it. */
  lemma {:induction false} ReceivesUntilClosed(lib: Library, inverse: map<string, nat>, ident: IdentMap,
                                               items: seq<Item>, rest: seq<WsRead>)
    requires Sound(lib) && AllCarried(lib, inverse, ident, items)
    ensures ReceiveWs(lib, ident, ReadsOf(lib, inverse, items) + [CloseMessage] + rest) == CarriedBy(items)
  {
    hide Frame, FrameOf, Sendable, DecodeBuffer;
    var incoming := ReadsOf(lib, inverse, items) + [CloseMessage] + rest;
    if items == [] {
      assert incoming[0] == CloseMessage;
    } else {
      ReceivesUntilClosed(lib, inverse, ident, items[1..], rest);
      assert incoming[1..] == ReadsOf(lib, inverse, items[1..]) + [CloseMessage] + rest;
      if items[0].Carrying? {
        FrameIsEncoded(lib, inverse, ident, PLAIN, items[0].m);
        WsRoundTrip(lib, inverse, ident, items[0].m);
        PlainIgnoresNonce(lib, inverse, items[0].m);
      }
    }
  }

  lemma PlainIgnoresNonce(lib: Library, inverse: map<string, nat>, m: Sent)
    ensures FrameOf(lib, inverse, m.msg, PLAIN, []) == FrameOf(lib, inverse, m.msg, PLAIN, m.nonce)
  {
  }
}
