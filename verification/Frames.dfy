/** Messages, the libraries that serialise and seal them, and the frames put on a connection. */
module Frames {
  import opened Bytes

  /** A protobuf message: its full type name and its field values. */
  datatype Message = Message(name: string, fields: seq<int>)

  /** Wire ids to prototypes; `None` is the nil prototype a default route registers. */
  type IdentMap = map<nat, Option<Message>>

  /** The protobuf runtime, AES-256-GCM and HMAC-SHA-512/256, as functions of their inputs. */
  datatype Library = Library(
    marshal: Message -> Option<bytes>,
    unmarshal: (string, bytes) -> Option<Message>,
    seal: (bytes, bytes, bytes) -> bytes,
    open: (bytes, bytes, bytes) -> Option<bytes>,
    mac: (bytes, bytes) -> bytes)

  const NONCE_SIZE := 12
  const TAG_SIZE := 16
  const MAC_SIZE := 32

  /** A key is a pointer in the source; only when both are present is a connection encrypted. */
  datatype Keys = Keys(enc: Option<bytes>, mac: Option<bytes>) {
    predicate Encrypted() { enc.Some? && mac.Some? }
  }

  /** Unmarshalling under its own type name gives a marshalled message back. */
  ghost predicate MarshalInverts(lib: Library) {
    forall m: Message, raw: bytes ::
      lib.marshal(m) == Some(raw) ==> lib.unmarshal(m.name, raw) == Some(m)
  }

  /** Section 7 of NIST SP 800-38D: opening what was sealed, and the length of the tag. */
  ghost predicate CipherInverts(lib: Library) {
    && (forall k: bytes, n: bytes, p: bytes :: lib.open(k, n, lib.seal(k, n, p)) == Some(p))
    && (forall k: bytes, n: bytes, p: bytes :: |lib.seal(k, n, p)| == |p| + TAG_SIZE)
  }

  /** Section 2 of RFC 2104 with a 256-bit hash: the tag has a fixed size. */
  ghost predicate MacHasFixedSize(lib: Library) {
    forall k: bytes, d: bytes :: |lib.mac(k, d)| == MAC_SIZE
  }

  ghost predicate Sound(lib: Library) {
    MarshalInverts(lib) && CipherInverts(lib) && MacHasFixedSize(lib)
  }

  /** nonce | ciphertext | tag */
  function Encrypt(lib: Library, plaintext: bytes, key: bytes, nonce: bytes): bytes {
    nonce + lib.seal(key, nonce, plaintext)
  }

  function Decrypt(lib: Library, ciphertext: bytes, key: bytes): Option<bytes> {
    if |ciphertext| < NONCE_SIZE then None
    else lib.open(key, ciphertext[..NONCE_SIZE], ciphertext[NONCE_SIZE..])
  }

  /** What a sealed payload contains: the tag first, then the marshalled message. */
  function SealedPayload(lib: Library, raw: bytes, enc: bytes, mac: bytes, nonce: bytes): bytes {
    Encrypt(lib, lib.mac(mac, raw) + raw, enc, nonce)
  }

  /** The frame with an HMAC size field.  A failed marshal is recovered inside the source's
      function, which then returns its zero result: no bytes at all. */
  function EncryptProtobuf(lib: Library, m: Message, id: int, enc: bytes, mac: bytes, nonce: bytes): bytes {
    match lib.marshal(m)
    case None => []
    case Some(raw) =>
      var tag := lib.mac(mac, raw);
      var sealed := SealedPayload(lib, raw, enc, mac, nonce);
      PREAMBLE + SizeWriter(id) + SizeWriter(|tag|) + SizeWriter(|sealed|) + sealed
  }

  /** Decrypt, split off the tag, check it, unmarshal into a clone of the prototype `name`.
      A tag size beyond the plaintext panics in the slice expression and is recovered. */
  function DecryptProtobuf(lib: Library, name: string, raw: bytes, hmacSize: nat, enc: bytes,
                           mac: bytes): Option<Message>
  {
    match Decrypt(lib, raw, enc)
    case None => None
    case Some(plain) =>
      if hmacSize > |plain| then None
      else if lib.mac(mac, plain[hmacSize..]) != plain[..hmacSize] then None
      else lib.unmarshal(name, plain[hmacSize..])
  }

  function PlainFrame(id: int, raw: bytes): bytes {
    PREAMBLE + SizeWriter(id) + SizeWriter(|raw|) + raw
  }

  /** The bytes one message becomes; `None` when the type is unknown to the sender or, in plain
      mode, when marshalling fails. */
  function FrameOf(lib: Library, inverse: map<string, nat>, m: Message, keys: Keys, nonce: bytes): Option<bytes> {
    if m.name !in inverse then None
    else if keys.Encrypted() then
      Some(EncryptProtobuf(lib, m, inverse[m.name], keys.enc.value, keys.mac.value, nonce))
    else match lib.marshal(m)
      case None => None
      case Some(raw) => Some(PlainFrame(inverse[m.name], raw))
  }

  /** What a receiver makes of anything sealed under its encryption key: a message only if a tag of
      the right size comes first, is the one the receiver's own key gives for the rest, and that rest
      unmarshals. */
  lemma DecryptProtobufAccepts(lib: Library, name: string, plain: bytes, hmacSize: nat, enc: bytes, mac: bytes,
                              nonce: bytes)
    requires CipherInverts(lib) && MacHasFixedSize(lib) && |nonce| == NONCE_SIZE
    ensures DecryptProtobuf(lib, name, Encrypt(lib, plain, enc, nonce), hmacSize, enc, mac)
      == if hmacSize == MAC_SIZE <= |plain| && plain[..MAC_SIZE] == lib.mac(mac, plain[MAC_SIZE..])
         then lib.unmarshal(name, plain[MAC_SIZE..]) else None
  {
    assert Decrypt(lib, Encrypt(lib, plain, enc, nonce), enc) == Some(plain);
    if hmacSize <= |plain| {
      assert |lib.mac(mac, plain[hmacSize..])| == MAC_SIZE;
    }
  }

  /** So with any 32 bytes in the place of the tag the message is accepted if and only if they are the
      tag, and a payload sealed for another authentication key only if both keys give the same tag. */
  lemma TagDecides(lib: Library, name: string, tag: bytes, raw: bytes, enc: bytes, mac: bytes, nonce: bytes)
    requires CipherInverts(lib) && MacHasFixedSize(lib) && |nonce| == NONCE_SIZE && |tag| == MAC_SIZE
    ensures DecryptProtobuf(lib, name, Encrypt(lib, tag + raw, enc, nonce), MAC_SIZE, enc, mac)
      == if tag == lib.mac(mac, raw) then lib.unmarshal(name, raw) else None
  {
    DecryptProtobufAccepts(lib, name, tag + raw, MAC_SIZE, enc, mac, nonce);
    assert (tag + raw)[..MAC_SIZE] == tag && (tag + raw)[MAC_SIZE..] == raw;
  }

  datatype WriteResult = Written | Refused

  /** The sending side of a connection. */
  class Sink {
    var written: bytes

    constructor ()
      ensures written == []
    {
      written := [];
    }

    /** `accepted` is how many bytes the network takes; fewer than offered is an error. */
    method Write(b: bytes, accepted: nat) returns (r: WriteResult)
      modifies this
      ensures r.Written? <==> accepted >= |b|
      ensures written == old(written) + if accepted >= |b| then b else b[..accepted]
    {
      if accepted >= |b| {
        written := written + b;
        r := Written;
      } else {
        written := written + b[..accepted];
        r := Refused;
      }
    }
  }

  /** What one put leaves on the connection: the whole frame, a proper front of it when the
      network refuses the rest, or nothing when there is no frame. */
  function PutBytes(frame: Option<bytes>, accepted: nat): bytes {
    match frame
    case None => []
    case Some(f) => if accepted >= |f| then f else f[..accepted]
  }

  predicate PutSucceeds(frame: Option<bytes>, accepted: nat) {
    frame.Some? && accepted >= |frame.value|
  }

  method PutMessageInConnection(conn: Sink, lib: Library, inverse: map<string, nat>, m: Message, keys: Keys,
                                nonce: bytes, accepted: nat) returns (ok: bool)
    modifies conn
    ensures ok == PutSucceeds(FrameOf(lib, inverse, m, keys, nonce), accepted)
    ensures conn.written == old(conn.written) + PutBytes(FrameOf(lib, inverse, m, keys, nonce), accepted)
    ensures m.name !in inverse ==> !ok && conn.written == old(conn.written)
  {
    if m.name !in inverse {
      return false;
    }
    var bigBytes: bytes := [];
    if keys.Encrypted() {
      bigBytes := EncryptProtobuf(lib, m, inverse[m.name], keys.enc.value, keys.mac.value, nonce);
    } else {
      var v := lib.marshal(m);
      if v.None? {
        return false;
      }
      bigBytes := PREAMBLE + SizeWriter(inverse[m.name]);
      bigBytes := bigBytes + SizeWriter(|v.value|);
      bigBytes := bigBytes + v.value;
    }
    var r := conn.Write(bigBytes, accepted);
    ok := r.Written?;
  }

  /** In encrypted mode a message that cannot be marshalled is reported as sent, with nothing
      on the connection; in plain mode the same message is an error. */
  lemma UnmarshalableMessageIsSilentlyDropped(lib: Library, inverse: map<string, nat>, m: Message, keys: Keys,
                                              nonce: bytes, accepted: nat)
    requires m.name in inverse && lib.marshal(m).None?
    ensures PutSucceeds(FrameOf(lib, inverse, m, keys, nonce), accepted) <==> keys.Encrypted()
    ensures PutBytes(FrameOf(lib, inverse, m, keys, nonce), accepted) == []
  {
  }

  /** A message whose type is not registered is refused, and nothing is written. */
  lemma UnknownTypeIsRefused(lib: Library, inverse: map<string, nat>, m: Message, keys: Keys, nonce: bytes,
                             accepted: nat)
    requires m.name !in inverse
    ensures !PutSucceeds(FrameOf(lib, inverse, m, keys, nonce), accepted)
    ensures PutBytes(FrameOf(lib, inverse, m, keys, nonce), accepted) == []
  {
  }

  /** What a frame put for a message looks like, field by field, in both modes. */
  ghost predicate IsFrame(lib: Library, inverse: map<string, nat>, m: Message, keys: Keys, nonce: bytes, frame: bytes) {
    && m.name in inverse
    && var start := PREAMBLE + SizeWriter(inverse[m.name]);
       match lib.marshal(m)
       case None => keys.Encrypted() && frame == []
       case Some(raw) =>
         if keys.Encrypted() then
           var sealed := nonce + lib.seal(keys.enc.value, nonce, lib.mac(keys.mac.value, raw) + raw);
           frame == start + SizeWriter(MAC_SIZE) + SizeWriter(|sealed|) + sealed
         else frame == start + SizeWriter(|raw|) + raw
  }

  /** Only a message of a registered type that can be marshalled has a frame, and it is that one; an
      encrypted put of one that cannot writes nothing. */
  lemma FrameOfIff(lib: Library, inverse: map<string, nat>, m: Message, keys: Keys, nonce: bytes, frame: bytes)
    requires MacHasFixedSize(lib)
    ensures FrameOf(lib, inverse, m, keys, nonce) == Some(frame) <==> IsFrame(lib, inverse, m, keys, nonce, frame)
  {
    if lib.marshal(m).Some? && keys.Encrypted() {
      assert |lib.mac(keys.mac.value, lib.marshal(m).value)| == MAC_SIZE;
    }
  }
}
