/** The decoder of the TCP transport: one `Read` per field, short reads padded with zeros,
    failed header reads turned into 0. */
module StreamDecoder {
  import opened Bytes
  import opened Frames
  import opened Network

  /** `EndOfStream` is the source's pair of a nil message and a nil error. */
  datatype Outcome = Delivered(msg: Message) | EndOfStream | Failed

  /** The panic of a failed read is recovered inside the source's function, leaving 0. */
  function ReadSize(s: Source): (uint32, Source) {
    match ReadFrom(s, SIZE_WIDTH)
    case (ReadFailed(_), s') => (0, s')
    case (Got(d), s') => (SizeReader(Padded(d, SIZE_WIDTH)), s')
  }

  function Unpack(lib: Library, name: string, payload: bytes, hmacSize: nat, keys: Keys): Option<Message> {
    if keys.Encrypted() then DecryptProtobuf(lib, name, payload, hmacSize, keys.enc.value, keys.mac.value)
    else lib.unmarshal(name, payload)
  }

  /** Everything after the type field, for a prototype called `name`. */
  function DecodeBody(lib: Library, name: string, s: Source, keys: Keys): (Outcome, Source) {
    var (hmacSize, s1) := if keys.Encrypted() then ReadSize(s) else (0, s);
    var (size, s2) := ReadSize(s1);
    match ReadFrom(s2, size)
    case (ReadFailed(_), s3) => (Failed, s3)
    case (Got(v), s3) =>
      if |v| != size then (Failed, s3)
      else match Unpack(lib, name, v, hmacSize, keys)
        case None => (Failed, s3)
        case Some(m) => (Delivered(m), s3)
  }

  /** Everything after the preamble. */
  function DecodeTyped(lib: Library, ident: IdentMap, s: Source, keys: Keys): (Outcome, Source) {
    var (id, s1) := ReadSize(s);
    if id !in ident || ident[id].None? then (Failed, s1)
    else DecodeBody(lib, ident[id].value.name, s1, keys)
  }

  function Decode(lib: Library, ident: IdentMap, s: Source, keys: Keys): (Outcome, Source) {
    match ReadFrom(s, PREAMBLE_SIZE)
    case (ReadFailed(eof), s1) => (if eof then EndOfStream else Failed, s1)
    case (Got(d), s1) =>
      if Padded(d, PREAMBLE_SIZE) != PREAMBLE then (Failed, s1)
      else DecodeTyped(lib, ident, s1, keys)
  }

  datatype PreambleCheck = Accepted | AtEnd | Invalid

  method IsPreambleValid(reader: BufferedReader) returns (check: PreambleCheck)
    modifies reader, reader.conn
    ensures var (r, s) := ReadFrom(old(reader.View()), PREAMBLE_SIZE);
      && reader.View() == s
      && (check.AtEnd? <==> r == ReadFailed(true))
      && (check.Accepted? <==> r.Got? && Padded(r.data, PREAMBLE_SIZE) == PREAMBLE)
  {
    var r := reader.Read(PREAMBLE_SIZE);
    if r.ReadFailed? {
      return if r.eof then AtEnd else Invalid;
    }
    var b := Padded(r.data, PREAMBLE_SIZE);
    for i := 0 to |b|
      invariant b[..i] == PREAMBLE[..i]
    {
      if i < |PREAMBLE| && b[i] != PREAMBLE[i] {
        return Invalid;
      }
      assert b[..i + 1] == b[..i] + [b[i]];
    }
    assert b == b[..|b|] && PREAMBLE == PREAMBLE[..|b|];
    check := Accepted;
  }

  method ReadSizeField(reader: BufferedReader) returns (size: uint32)
    modifies reader, reader.conn
    ensures (size, reader.View()) == ReadSize(old(reader.View()))
  {
    var r := reader.Read(SIZE_WIDTH);
    if r.ReadFailed? {
      return 0;
    }
    size := SizeReader(Padded(r.data, SIZE_WIDTH));
  }

  method GetMessageFromConnection(reader: BufferedReader, lib: Library, ident: IdentMap, keys: Keys)
    returns (o: Outcome)
    modifies reader, reader.conn
    ensures (o, reader.View()) == Decode(lib, ident, old(reader.View()), keys)
  {
    var check := IsPreambleValid(reader);
    if check.AtEnd? {
      return EndOfStream;
    } else if check.Invalid? {
      return Failed;
    }
    var messageType := ReadSizeField(reader);
    if messageType !in ident || ident[messageType].None? {
      return Failed;
    }
    var hmacSize := 0;
    if keys.Encrypted() {
      hmacSize := ReadSizeField(reader);
    }
    var size := ReadSizeField(reader);
    var v := reader.Read(size);
    if v.ReadFailed? || |v.data| != size {
      return Failed;
    }
    var m := Unpack(lib, ident[messageType].value.name, v.data, hmacSize, keys);
    o := if m.Some? then Delivered(m.value) else Failed;
  }

  /** The sender's id for `name` leads the receiver to a prototype of that type. */
  ghost predicate Resolves(inverse: map<string, nat>, ident: IdentMap, name: string) {
    && name in inverse && inverse[name] < TWO_TO_THE_32
    && inverse[name] in ident && ident[inverse[name]].Some? && ident[inverse[name]].value.name == name
  }

  /** A message and the frame its sender makes of it, together with what the frame carries. */
  datatype Sent = Sent(msg: Message, raw: bytes, nonce: bytes)

  /** The bytes behind the last size field. */
  function Payload(lib: Library, m: Sent, keys: Keys): bytes {
    if keys.Encrypted() then SealedPayload(lib, m.raw, keys.enc.value, keys.mac.value, m.nonce) else m.raw
  }

  /** The message marshals to `raw`, the receiver knows its type, and its size fits the field. */
  ghost predicate Sendable(lib: Library, inverse: map<string, nat>, ident: IdentMap, keys: Keys, m: Sent) {
    && lib.marshal(m.msg) == Some(m.raw)
    && Resolves(inverse, ident, m.msg.name)
    && |m.nonce| == NONCE_SIZE
    && |Payload(lib, m, keys)| < TWO_TO_THE_32
  }

  function HeaderRest(m: Sent, keys: Keys, payload: bytes): bytes {
    (if keys.Encrypted() then SizeWriter(MAC_SIZE) else []) + SizeWriter(|payload|)
  }

  function Frame(lib: Library, inverse: map<string, nat>, keys: Keys, m: Sent): bytes
    requires m.msg.name in inverse
  {
    var payload := Payload(lib, m, keys);
    PREAMBLE + (SizeWriter(inverse[m.msg.name]) + (HeaderRest(m, keys, payload) + payload))
  }

  function HeaderSize(keys: Keys): nat {
    if keys.Encrypted() then 19 else 15
  }

  /** The frame, field by field, is what the sender's encoder builds. */
  lemma FrameIsEncoded(lib: Library, inverse: map<string, nat>, ident: IdentMap, keys: Keys, m: Sent)
    requires Sound(lib) && Sendable(lib, inverse, ident, keys, m)
    ensures FrameOf(lib, inverse, m.msg, keys, m.nonce) == Some(Frame(lib, inverse, keys, m))
    ensures |Frame(lib, inverse, keys, m)| == HeaderSize(keys) + |Payload(lib, m, keys)|
  {
    var payload := Payload(lib, m, keys);
    var id := inverse[m.msg.name];
    if keys.Encrypted() {
      assert |lib.mac(keys.mac.value, m.raw)| == MAC_SIZE;
      assert PREAMBLE + SizeWriter(id) + SizeWriter(MAC_SIZE) + SizeWriter(|payload|) + payload
          == Frame(lib, inverse, keys, m);
    } else {
      assert PREAMBLE + SizeWriter(id) + SizeWriter(|payload|) + payload == Frame(lib, inverse, keys, m);
    }
  }

  /** Where the parts of a frame lie. */
  lemma FrameShape(lib: Library, inverse: map<string, nat>, ident: IdentMap, keys: Keys, m: Sent)
    requires Sound(lib) && lib.marshal(m.msg) == Some(m.raw) && m.msg.name in inverse && |m.nonce| == NONCE_SIZE
    ensures var frame, payload, h := Frame(lib, inverse, keys, m), Payload(lib, m, keys), HeaderSize(keys);
      && |frame| == h + |payload| && frame[h..] == payload && frame[h - 4..h] == SizeWriter(|payload|)
      && frame == PREAMBLE + (SizeWriter(inverse[m.msg.name]) + (HeaderRest(m, keys, payload) + payload))
      && (!keys.Encrypted() ==> payload == m.raw && HeaderRest(m, keys, payload) == SizeWriter(|payload|))
      && (keys.Encrypted() ==> |payload| > 0)
  {
  }

  /** The payload of a sendable message unpacks to the message, given the right tag size. */
  lemma PayloadUnpacks(lib: Library, keys: Keys, m: Sent, hmacSize: nat)
    requires Sound(lib) && lib.marshal(m.msg) == Some(m.raw) && |m.nonce| == NONCE_SIZE
    ensures Unpack(lib, m.msg.name, Payload(lib, m, keys), hmacSize, keys)
      == if keys.Encrypted() && hmacSize != MAC_SIZE then None else Some(m.msg)
  {
  }

  lemma ReadsField(a: bytes, b: bytes, net: seq<ReadEvent>)
    ensures ReadFrom(Source(a + b, net), |a|) == (Got(a), Source(b, net))
  {
    if a == [] {
      assert a + b == b;
    }
  }

  lemma ReadsSize(n: nat, b: bytes, net: seq<ReadEvent>)
    requires n < TWO_TO_THE_32
    ensures ReadSize(Source(SizeWriter(n) + b, net)) == (n, Source(b, net))
  {
  }

  /** A buffered preamble and type field are taken, and the rest is decoded by the prototype. */
  lemma DecodesType(lib: Library, ident: IdentMap, keys: Keys, id: nat, tail: bytes, net: seq<ReadEvent>)
    requires id < TWO_TO_THE_32 && id in ident && ident[id].Some?
    ensures Decode(lib, ident, Source(PREAMBLE + (SizeWriter(id) + tail), net), keys)
      == DecodeBody(lib, ident[id].value.name, Source(tail, net), keys)
  {
    ReadsField(PREAMBLE, SizeWriter(id) + tail, net);
    assert Padded(PREAMBLE, PREAMBLE_SIZE) == PREAMBLE;
    ReadsSize(id, tail, net);
  }

  lemma DecodesBody(lib: Library, keys: Keys, m: Sent, rest: bytes, net: seq<ReadEvent>)
    requires Sound(lib) && lib.marshal(m.msg) == Some(m.raw) && |m.nonce| == NONCE_SIZE
    requires |Payload(lib, m, keys)| < TWO_TO_THE_32
    ensures var payload := Payload(lib, m, keys);
      DecodeBody(lib, m.msg.name, Source(HeaderRest(m, keys, payload) + (payload + rest), net), keys)
        == (Delivered(m.msg), Source(rest, net))
  {
    var payload := Payload(lib, m, keys);
    var body := payload + rest;
    var tail := SizeWriter(|payload|) + body;
    if keys.Encrypted() {
      assert HeaderRest(m, keys, payload) + body == SizeWriter(MAC_SIZE) + tail;
      ReadsSize(MAC_SIZE, tail, net);
    } else {
      assert HeaderRest(m, keys, payload) + body == tail;
    }
    ReadsSize(|payload|, body, net);
    ReadsField(payload, rest, net);
    PayloadUnpacks(lib, keys, m, if keys.Encrypted() then MAC_SIZE else 0);
  }

  /** A buffered frame decodes to its message, and exactly the frame is taken. */
  lemma DecodesFrame(lib: Library, inverse: map<string, nat>, ident: IdentMap, keys: Keys, m: Sent, rest: bytes,
                     net: seq<ReadEvent>)
    requires Sound(lib) && Sendable(lib, inverse, ident, keys, m)
    ensures Decode(lib, ident, Source(Frame(lib, inverse, keys, m) + rest, net), keys)
        == (Delivered(m.msg), Source(rest, net))
  {
    var payload := Payload(lib, m, keys);
    var tail := HeaderRest(m, keys, payload) + (payload + rest);
    assert Frame(lib, inverse, keys, m) + rest == PREAMBLE + (SizeWriter(inverse[m.msg.name]) + tail);
    DecodesType(lib, ident, keys, inverse[m.msg.name], tail, net);
    DecodesBody(lib, keys, m, rest, net);
  }

  /** An encrypted frame with any 32 bytes in the place of the tag, taken whole from the reader: it is
      accepted if and only if they are the tag that the receiver's own key gives. */
  lemma TagDecidesFrame(lib: Library, ident: IdentMap, keys: Keys, id: nat, tag: bytes, raw: bytes, nonce: bytes,
                        rest: bytes, net: seq<ReadEvent>)
    requires Sound(lib) && keys.Encrypted() && |nonce| == NONCE_SIZE && |tag| == MAC_SIZE
    requires id < TWO_TO_THE_32 && id in ident && ident[id].Some?
    requires |Encrypt(lib, tag + raw, keys.enc.value, nonce)| < TWO_TO_THE_32
    ensures var sealed := Encrypt(lib, tag + raw, keys.enc.value, nonce);
      var frame := PREAMBLE + (SizeWriter(id) + (SizeWriter(MAC_SIZE) + (SizeWriter(|sealed|) + (sealed + rest))));
      var m := lib.unmarshal(ident[id].value.name, raw);
      Decode(lib, ident, Source(frame, net), keys)
        == (if tag == lib.mac(keys.mac.value, raw) && m.Some? then Delivered(m.value) else Failed, Source(rest, net))
  {
    hide Decrypt, DecryptProtobuf, SizeWriter, SizeReader, ReadSize, Decode;
    var sealed := Encrypt(lib, tag + raw, keys.enc.value, nonce);
    var body := SizeWriter(|sealed|) + (sealed + rest);
    DecodesType(lib, ident, keys, id, SizeWriter(MAC_SIZE) + body, net);
    ReadsSize(MAC_SIZE, body, net);
    ReadsSize(|sealed|, sealed + rest, net);
    ReadsField(sealed, rest, net);
    TagDecides(lib, ident[id].value.name, tag, raw, keys.enc.value, keys.mac.value, nonce);
  }

  ghost predicate AllSendable(lib: Library, inverse: map<string, nat>, ident: IdentMap, keys: Keys, ms: seq<Sent>) {
    forall i | 0 <= i < |ms| :: ms[i].msg.name in inverse && Sendable(lib, inverse, ident, keys, ms[i])
  }

  function Encodings(lib: Library, inverse: map<string, nat>, keys: Keys, ms: seq<Sent>): (frames: seq<bytes>)
    requires forall i | 0 <= i < |ms| :: ms[i].msg.name in inverse
  {
    if ms == [] then [] else [Frame(lib, inverse, keys, ms[0])] + Encodings(lib, inverse, keys, ms[1..])
  }

  function Messages(ms: seq<Sent>): seq<Message> {
    if ms == [] then [] else [ms[0].msg] + Messages(ms[1..])
  }

  /** `count` messages decoded one after the other from the same reader, as far as they go. */
  function DecodeMany(lib: Library, ident: IdentMap, s: Source, keys: Keys, count: nat): (seq<Message>, Source)
    decreases count
  {
    if count == 0 then ([], s)
    else match Decode(lib, ident, s, keys)
      case (Delivered(m), s') =>
        var (ms, s'') := DecodeMany(lib, ident, s', keys, count - 1);
        ([m] + ms, s'')
      case (_, s') => ([], s')
  }

  /** Encoding messages one after the other and decoding from one reader that holds all the bytes
      gives the messages back and leaves what follows them untouched, in both modes. */
  lemma {:induction false} StreamRoundTrip(lib: Library, inverse: map<string, nat>, ident: IdentMap, keys: Keys,
                                           ms: seq<Sent>, rest: bytes, net: seq<ReadEvent>)
    requires Sound(lib) && AllSendable(lib, inverse, ident, keys, ms)
    ensures DecodeMany(lib, ident, Source(Concat(Encodings(lib, inverse, keys, ms)) + rest, net), keys, |ms|)
      == (Messages(ms), Source(rest, net))
  {
    var bytes := Concat(Encodings(lib, inverse, keys, ms));
    if ms == [] {
      assert bytes + rest == rest;
    } else {
      var frame := Frame(lib, inverse, keys, ms[0]);
      var tail := Concat(Encodings(lib, inverse, keys, ms[1..]));
      assert bytes + rest == frame + (tail + rest);
      DecodesFrame(lib, inverse, ident, keys, ms[0], tail + rest, net);
      StreamRoundTrip(lib, inverse, ident, keys, ms[1..], rest, net);
    }
  }
}
