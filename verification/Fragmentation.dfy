/** One frame cut into arbitrary arrivals, truncated anywhere, with read errors anywhere. */
module Fragmentation {
  import opened Bytes
  import opened Frames
  import opened Network
  import opened StreamDecoder

  /** Every wire id has a non-zero low byte, so a type field cut short is never registered. */
  ghost predicate LowBytes(ident: IdentMap) {
    forall id | id in ident :: id % 256 != 0
  }

  /** Of all the stretches of this frame, the cipher opens the sealed payload and nothing else. */
  ghost predicate OpensOnly(lib: Library, key: bytes, frame: bytes, sealed: bytes) {
    forall a, b | 0 <= a <= b <= |frame| ::
      Decrypt(lib, frame[a..b], key).Some? ==> frame[a..b] == sealed
  }

  /** A read takes the next stretch of the stream, or nothing. */
  lemma ReadTakes(s: Source, n: nat, f: bytes, from: nat, to: nat)
    requires from <= to <= |f| && Stream(s) == f[from..to]
    ensures var (r, s') := ReadFrom(s, n);
      if r.Got? then from + |r.data| <= to && r.data == f[from..from + |r.data|] && Stream(s') == f[from + |r.data|..to]
      else Stream(s') == f[from..to]
  {
    ReadConserves(s, n);
    var (r, s') := ReadFrom(s, n);
    if r.Got? {
      assert r.data == f[from..to][..|r.data|];
      assert Stream(s') == f[from..to][|r.data|..];
    }
  }

  /** How far a size read moves along the stream. */
  function SizeStep(s: Source): (k: nat)
    ensures k <= SIZE_WIDTH
  {
    match ReadFrom(s, SIZE_WIDTH).0
    case Got(d) => |d|
    case ReadFailed(_) => 0
  }

  /** A size read yields the next bytes padded with zeros, whatever happened. */
  lemma SizeTakes(s: Source, f: bytes, from: nat, to: nat)
    requires from <= to <= |f| && Stream(s) == f[from..to]
    ensures var (n, s') := ReadSize(s); var k := SizeStep(s);
      && from + k <= to && Stream(s') == f[from + k..to]
      && n == SizeReader(Padded(f[from..from + k], SIZE_WIDTH))
      && (k < SIZE_WIDTH ==> n % 256 == 0)
  {
    ReadTakes(s, SIZE_WIDTH, f, from, to);
    assert f[from..from] == [];
    assert SizeReader(Padded([], SIZE_WIDTH)) == 0;
  }

  /** What is left once the preamble and the type have been read. */
  function AfterType(s: Source): Source {
    ReadSize(ReadFrom(s, PREAMBLE_SIZE).1).1
  }

  /** A message is only delivered behind a whole preamble. */
  lemma PreambleIsRight(lib: Library, ident: IdentMap, keys: Keys, tail: bytes, s: Source)
    requires Stream(s) <= PREAMBLE + tail
    requires Decode(lib, ident, s, keys).0.Delivered?
    ensures ReadFrom(s, PREAMBLE_SIZE).0 == Got(PREAMBLE)
    ensures |Stream(s)| >= 7 && Stream(ReadFrom(s, PREAMBLE_SIZE).1) == Stream(s)[7..]
    ensures Decode(lib, ident, s, keys) == DecodeTyped(lib, ident, ReadFrom(s, PREAMBLE_SIZE).1, keys)
  {
    hide ReadFrom, DecodeTyped, Flatten;
    var f := PREAMBLE + tail;
    assert Stream(s) == f[0..|Stream(s)|];
    ReadTakes(s, PREAMBLE_SIZE, f, 0, |Stream(s)|);
    ShortPreambleIsInvalid(ReadFrom(s, PREAMBLE_SIZE).0.data);
  }

  /** And only by the sender's own type, read in full. */
  lemma TypeIsRight(lib: Library, ident: IdentMap, keys: Keys, id: nat, tail: bytes, s: Source)
    requires LowBytes(ident) && id < TWO_TO_THE_32
    requires Stream(s) <= PREAMBLE + (SizeWriter(id) + tail)
    requires Decode(lib, ident, s, keys).0.Delivered?
    ensures |Stream(s)| >= 11 && Stream(AfterType(s)) == Stream(s)[11..]
    ensures ReadFrom(s, PREAMBLE_SIZE).0 == Got(PREAMBLE) && SizeStep(ReadFrom(s, PREAMBLE_SIZE).1) == SIZE_WIDTH
    ensures id in ident && ident[id].Some?
    ensures Decode(lib, ident, s, keys) == DecodeBody(lib, ident[id].value.name, AfterType(s), keys)
  {
    hide ReadFrom, SizeReader, SizeWriter, Decode, DecodeBody, Flatten;
    PreambleIsRight(lib, ident, keys, SizeWriter(id) + tail, s);
    var f := SizeWriter(id) + tail;
    var s1 := ReadFrom(s, PREAMBLE_SIZE).1;
    var to := |Stream(s1)|;
    assert Stream(s1) == f[0..to];
    SizeTakes(s1, f, 0, to);
    assert f[0..SizeStep(s1)] == SizeWriter(id)[..SizeStep(s1)];
    assert Padded(SizeWriter(id), SIZE_WIDTH) == SizeWriter(id)[..SIZE_WIDTH] == SizeWriter(id);
    SizeReaderInvertsWriter(id);
    assert Stream(AfterType(s)) == Stream(s)[11..];
  }

  /** A delivered encrypted message was opened from this frame's sealed payload, with the whole
      tag size: it can only be the message sent. */
  lemma SealedBodyIsRight(lib: Library, keys: Keys, m: Sent, frame: bytes, s: Source, from: nat, to: nat)
    requires Sound(lib) && keys.Encrypted() && lib.marshal(m.msg) == Some(m.raw) && |m.nonce| == NONCE_SIZE
    requires OpensOnly(lib, keys.enc.value, frame, Payload(lib, m, keys))
    requires from <= to <= |frame| && Stream(s) == frame[from..to]
    requires DecodeBody(lib, m.msg.name, s, keys).0.Delivered?
    ensures DecodeBody(lib, m.msg.name, s, keys).0 == Delivered(m.msg)
    ensures ReadSize(s).0 == MAC_SIZE
    ensures var s2 := ReadSize(ReadSize(s).1).1;
      ReadFrom(s2, |Payload(lib, m, keys)|) == (Got(Payload(lib, m, keys)), DecodeBody(lib, m.msg.name, s, keys).1)
    ensures ReadSize(ReadSize(s).1).0 == |Payload(lib, m, keys)|
  {
    hide ReadFrom, SizeReader, SizeWriter, Flatten, Payload, Decrypt, SealedPayload;
    var (h, s1) := ReadSize(s);
    var (size, s2) := ReadSize(s1);
    var (v, s3) := ReadFrom(s2, size);
    SizeTakes(s, frame, from, to);
    var a := from + SizeStep(s);
    SizeTakes(s1, frame, a, to);
    var b := a + SizeStep(s1);
    ReadTakes(s2, size, frame, b, to);
    assert v.data == frame[b..b + |v.data|];
    assert Decrypt(lib, v.data, keys.enc.value).Some?;
    PayloadUnpacks(lib, keys, m, h);
  }

  /** The nil pair is returned exactly when the very first read finds the stream ended. */
  lemma NilPairMeansEnd(lib: Library, ident: IdentMap, keys: Keys, net: seq<ReadEvent>)
    ensures Decode(lib, ident, Source([], net), keys).0.EndOfStream? <==> net == [] || net[0] == Fault(true)
  {
  }

  /** Encrypted decoding is fail-safe under every fragmentation, truncation and read error: the
      sent message, the nil pair when the first read already finds the end, or an error. */
  lemma EncryptedFailSafe(lib: Library, inverse: map<string, nat>, ident: IdentMap, keys: Keys, m: Sent,
                          net: seq<ReadEvent>)
    requires Sound(lib) && keys.Encrypted() && LowBytes(ident)
    requires lib.marshal(m.msg) == Some(m.raw) && |m.nonce| == NONCE_SIZE && Resolves(inverse, ident, m.msg.name)
    requires OpensOnly(lib, keys.enc.value, Frame(lib, inverse, keys, m), Payload(lib, m, keys))
    requires Flatten(net) <= Frame(lib, inverse, keys, m)
    ensures var o := Decode(lib, ident, Source([], net), keys).0;
      || o == Delivered(m.msg)
      || (o == EndOfStream && (net == [] || net[0] == Fault(true)))
      || o == Failed
  {
    hide ReadFrom, SizeReader, SizeWriter, Decode, DecodeBody, Flatten, Payload, Frame, HeaderRest;
    var frame := Frame(lib, inverse, keys, m);
    var s := Source([], net);
    FrameShape(lib, inverse, ident, keys, m);
    NilPairMeansEnd(lib, ident, keys, net);
    assert Stream(s) == Flatten(net);
    if Decode(lib, ident, s, keys).0.Delivered? {
      var payload := Payload(lib, m, keys);
      TypeIsRight(lib, ident, keys, inverse[m.msg.name], HeaderRest(m, keys, payload) + payload, s);
      assert Stream(AfterType(s)) == frame[11..|Flatten(net)|];
      SealedBodyIsRight(lib, keys, m, frame, AfterType(s), 11, |Flatten(net)|);
    }
  }

  /** The preamble and the type each arrive whole and the size field does not. */
  predicate CutInSize(net: seq<ReadEvent>) {
    WholeIn(net, 0, 7) && WholeIn(net, 7, 4) && !WholeIn(net, 11, 4)
  }

  /** Beyond the type, what a plain decoder gets to see of its size field. */
  lemma PlainSize(lib: Library, ident: IdentMap, keys: Keys, id: nat, tail: bytes, net: seq<ReadEvent>)
    requires LowBytes(ident) && id < TWO_TO_THE_32
    requires Flatten(net) <= PREAMBLE + (SizeWriter(id) + tail)
    requires Decode(lib, ident, Source([], net), keys).0.Delivered?
    ensures WholeIn(net, 0, 7) && WholeIn(net, 7, 4)
    ensures WholeIn(net, 11, 4) <==> SizeStep(AfterType(Source([], net))) == SIZE_WIDTH
  {
    var s := Source([], net);
    assert Stream(s) == Flatten(net);
    TypeIsRight(lib, ident, keys, id, tail, s);
    HeaderWhole(s);
  }

  lemma HeaderWhole(s: Source)
    requires ReadFrom(s, 7).0.Got? && |ReadFrom(s, 7).0.data| == 7
    requires SizeStep(ReadFrom(s, 7).1) == 4
    ensures Whole(s, 0, 7) && Whole(s, 7, 4)
    ensures Whole(s, 11, 4) <==> SizeStep(AfterType(s)) == 4
  {
    var s1 := ReadFrom(s, 7).1;
    ReadGetsWhole(s, 7);
    ReadGetsWhole(s1, 4);
    WholeShifts(s, 7, 0, 4);
    WholeShifts(s, 7, 4, 4);
    WholeShifts(s1, 4, 0, 4);
    ReadGetsWhole(AfterType(s), 4);
  }

  /** A delivered plain message whose size field was not the first to be cut is the one sent. */
  lemma WholeHeaderIsRight(lib: Library, inverse: map<string, nat>, ident: IdentMap, keys: Keys, m: Sent,
                           net: seq<ReadEvent>)
    requires Sound(lib) && !keys.Encrypted() && LowBytes(ident)
    requires Sendable(lib, inverse, ident, keys, m)
    requires Flatten(net) <= Frame(lib, inverse, keys, m) && !CutInSize(net)
    requires Decode(lib, ident, Source([], net), keys).0.Delivered?
    ensures Decode(lib, ident, Source([], net), keys).0 == Delivered(m.msg)
  {
    hide ReadFrom, SizeReader, SizeWriter, Decode, DecodeBody, Flatten, WholeIn, Payload, Frame, HeaderRest;
    hide ReadSize, LowBytes, AfterType, SizeStep;
    var s := Source([], net);
    var tail := SizeWriter(|m.raw|) + m.raw;
    var frame := Frame(lib, inverse, keys, m);
    FrameShape(lib, inverse, ident, keys, m);
    PlainSize(lib, ident, keys, inverse[m.msg.name], tail, net);
    assert Stream(s) == Flatten(net);
    TypeIsRight(lib, ident, keys, inverse[m.msg.name], tail, s);
    assert Stream(AfterType(s)) == frame[11..|Flatten(net)|];
    WholeSizeDelivers(lib, keys, m, frame, AfterType(s), |Flatten(net)|);
  }

  /** Plain decoding is fail-safe unless the size field is the first to be cut. */
  lemma PlainFailSafe(lib: Library, inverse: map<string, nat>, ident: IdentMap, keys: Keys, m: Sent,
                      net: seq<ReadEvent>)
    requires Sound(lib) && !keys.Encrypted() && LowBytes(ident)
    requires Sendable(lib, inverse, ident, keys, m)
    requires Flatten(net) <= Frame(lib, inverse, keys, m)
    requires !CutInSize(net)
    ensures var o := Decode(lib, ident, Source([], net), keys).0;
      || o == Delivered(m.msg)
      || (o == EndOfStream && (net == [] || net[0] == Fault(true)))
      || o == Failed
  {
    hide Decode, Frame, LowBytes, CutInSize, Flatten, Sendable, Sound;
    NilPairMeansEnd(lib, ident, keys, net);
    if Decode(lib, ident, Source([], net), keys).0.Delivered? {
      WholeHeaderIsRight(lib, inverse, ident, keys, m, net);
    }
  }

  /** With the size field whole, only the whole payload is accepted. */
  lemma WholeSizeDelivers(lib: Library, keys: Keys, m: Sent, frame: bytes, s: Source, to: nat)
    requires Sound(lib) && !keys.Encrypted() && lib.marshal(m.msg) == Some(m.raw) && |m.raw| < TWO_TO_THE_32
    requires |frame| == 15 + |m.raw| && frame[11..15] == SizeWriter(|m.raw|) && frame[15..] == m.raw
    requires 11 <= to <= |frame| && Stream(s) == frame[11..to]
    requires SizeStep(s) == SIZE_WIDTH
    requires DecodeBody(lib, m.msg.name, s, keys).0.Delivered?
    ensures DecodeBody(lib, m.msg.name, s, keys).0 == Delivered(m.msg) && to == |frame|
    ensures ReadSize(s).0 == |m.raw|
    ensures ReadFrom(ReadSize(s).1, |m.raw|) == (Got(m.raw), DecodeBody(lib, m.msg.name, s, keys).1)
  {
    hide ReadFrom, SizeReader, SizeWriter, Flatten;
    SizeTakes(s, frame, 11, to);
    assert Padded(SizeWriter(|m.raw|), SIZE_WIDTH) == SizeWriter(|m.raw|);
    SizeReaderInvertsWriter(|m.raw|);
    var s1 := ReadSize(s).1;
    ReadTakes(s1, |m.raw|, frame, 15, to);
    var v := ReadFrom(s1, |m.raw|).0;
    assert v.data == frame[15..];
  }

  /** The preamble and the type read whole lead to the body. */
  lemma WholeHeaderDecodes(lib: Library, ident: IdentMap, keys: Keys, id: nat, tail: bytes, net: seq<ReadEvent>)
    requires id < TWO_TO_THE_32 && id in ident && ident[id].Some?
    requires Flatten(net) <= PREAMBLE + (SizeWriter(id) + tail)
    requires WholeIn(net, 0, 7) && WholeIn(net, 7, 4)
    ensures var s := Source([], net);
      && Decode(lib, ident, s, keys) == DecodeBody(lib, ident[id].value.name, AfterType(s), keys)
      && |Flatten(net)| >= 11 && Stream(AfterType(s)) == Flatten(net)[11..]
      && (SizeStep(AfterType(s)) == 4 <==> WholeIn(net, 11, 4))
  {
    hide ReadFrom, SizeReader, SizeWriter, Decode, DecodeBody, Flatten, WholeIn;
    var s := Source([], net);
    assert Stream(s) == Flatten(net);
    WholePreamble(lib, ident, keys, SizeWriter(id) + tail, s);
    var s1 := ReadFrom(s, 7).1;
    WholeShifts(s, 7, 0, 4);
    ReadGetsWhole(s1, 4);
    WholeType(lib, ident, keys, id, tail, s1);
    assert Stream(s1)[4..] == Flatten(net)[11..];
    HeaderWhole(s);
  }

  lemma WholeType(lib: Library, ident: IdentMap, keys: Keys, id: nat, tail: bytes, s: Source)
    requires id < TWO_TO_THE_32 && id in ident && ident[id].Some?
    requires Stream(s) <= SizeWriter(id) + tail && SizeStep(s) == SIZE_WIDTH
    ensures DecodeTyped(lib, ident, s, keys) == DecodeBody(lib, ident[id].value.name, ReadSize(s).1, keys)
    ensures |Stream(s)| >= 4 && Stream(ReadSize(s).1) == Stream(s)[4..]
  {
    hide ReadFrom, SizeReader, SizeWriter, DecodeBody, Flatten, ReadSize, SizeStep;
    var f := SizeWriter(id) + tail;
    var to := |Stream(s)|;
    assert Stream(s) == f[0..to];
    SizeTakes(s, f, 0, to);
    assert f[0..4] == SizeWriter(id);
    assert Padded(SizeWriter(id), SIZE_WIDTH) == SizeWriter(id);
    SizeReaderInvertsWriter(id);
  }

  lemma WholePreamble(lib: Library, ident: IdentMap, keys: Keys, tail: bytes, s: Source)
    requires Stream(s) <= PREAMBLE + tail && Whole(s, 0, 7)
    ensures Decode(lib, ident, s, keys) == DecodeTyped(lib, ident, ReadFrom(s, 7).1, keys)
    ensures ReadFrom(s, 7).0 == Got(PREAMBLE)
    ensures |Stream(s)| >= 7 && Stream(ReadFrom(s, 7).1) == Stream(s)[7..]
  {
    hide ReadFrom, DecodeTyped, Flatten, Whole;
    var f := PREAMBLE + tail;
    assert Stream(s) == f[0..|Stream(s)|];
    ReadGetsWhole(s, 7);
    ReadTakes(s, 7, f, 0, |Stream(s)|);
    assert f[0..7] == PREAMBLE;
    ShortPreambleIsInvalid(PREAMBLE);
  }

  /** What a plain decoder got to see of the size field, cut short or not, was nothing but zeros. */
  ghost predicate SizeSeenAsZero(m: Sent, net: seq<ReadEvent>) {
    AllZero(SizeWriter(|m.raw|)[..SizeStep(AfterType(Source([], net)))])
  }

  /** A plain size field that is cut after nothing but zeros reads as size 0, and an empty message
      of the frame's type is delivered. */
  lemma CutSizeDeliversBlank(lib: Library, inverse: map<string, nat>, ident: IdentMap, keys: Keys, m: Sent,
                             blank: Message, net: seq<ReadEvent>)
    requires Sound(lib) && !keys.Encrypted() && Sendable(lib, inverse, ident, keys, m)
    requires lib.unmarshal(m.msg.name, []) == Some(blank)
    requires Flatten(net) <= Frame(lib, inverse, keys, m)
    requires CutInSize(net) && SizeSeenAsZero(m, net)
    ensures Decode(lib, ident, Source([], net), keys).0 == Delivered(blank)
  {
    hide ReadFrom, SizeReader, SizeWriter, Flatten, WholeIn, Decode, DecodeBody, ReadSize, Payload, Frame, HeaderRest;
    var s := AfterType(Source([], net));
    var k := CutSizeSeen(lib, inverse, ident, keys, m, net);
    assert Padded(SizeWriter(|m.raw|)[..k], SIZE_WIDTH) == Zeros(SIZE_WIDTH);
    ZeroSizeReadsNothing(lib, m.msg.name, s, keys);
  }

  /** What follows a cut size field is read from within it. */
  lemma CutSizeSeen(lib: Library, inverse: map<string, nat>, ident: IdentMap, keys: Keys, m: Sent, net: seq<ReadEvent>)
    returns (k: nat)
    requires Sound(lib) && !keys.Encrypted() && Sendable(lib, inverse, ident, keys, m)
    requires Flatten(net) <= Frame(lib, inverse, keys, m) && CutInSize(net)
    ensures var s, frame, to := AfterType(Source([], net)), Frame(lib, inverse, keys, m), |Flatten(net)|;
      && k == SizeStep(s) < SIZE_WIDTH && 11 + k <= to <= |frame| && Stream(ReadSize(s).1) == frame[11 + k..to]
      && ReadSize(s).0 == SizeReader(Padded(SizeWriter(|m.raw|)[..k], SIZE_WIDTH))
      && Decode(lib, ident, Source([], net), keys) == DecodeBody(lib, m.msg.name, s, keys)
  {
    hide ReadFrom, SizeReader, SizeWriter, Flatten, WholeIn, Decode, DecodeBody, ReadSize, Payload, Frame, HeaderRest;
    var frame := Frame(lib, inverse, keys, m);
    var to := |Flatten(net)|;
    FrameShape(lib, inverse, ident, keys, m);
    WholeHeaderDecodes(lib, ident, keys, inverse[m.msg.name], SizeWriter(|m.raw|) + m.raw, net);
    var s := AfterType(Source([], net));
    assert Stream(s) == frame[11..to];
    SizeTakes(s, frame, 11, to);
    k := SizeStep(s);
    assert frame[11..11 + k] == frame[11..15][..k];
  }

  lemma ZeroSizeReadsNothing(lib: Library, name: string, s: Source, keys: Keys)
    requires !keys.Encrypted() && ReadSize(s).0 == SizeReader(Zeros(SIZE_WIDTH)) && lib.unmarshal(name, []).Some?
    ensures DecodeBody(lib, name, s, keys).0 == Delivered(lib.unmarshal(name, []).value)
  {
  }

  /** No stretch of the frame that starts inside its size field is a message. */
  ghost predicate SizeFieldRefused(lib: Library, name: string, frame: bytes) {
    forall a, b | 11 <= a < 15 && a < b <= |frame| :: lib.unmarshal(name, frame[a..b]).None?
  }

  lemma ZeroSizeIsZeros(b: bytes)
    requires |b| <= SIZE_WIDTH && SizeReader(Padded(b, SIZE_WIDTH)) == 0
    ensures AllZero(b)
  {
    var p := Padded(b, SIZE_WIDTH);
    SizeWriterInvertsReader(p);
    assert SizeWriter(0) == [0, 0, 0, 0];
    assert forall i | 0 <= i < |b| :: b[i] == p[i];
  }

  lemma CutSizeNeedsZeros(lib: Library, inverse: map<string, nat>, ident: IdentMap, keys: Keys, m: Sent,
                          net: seq<ReadEvent>)
    requires Sound(lib) && !keys.Encrypted() && Sendable(lib, inverse, ident, keys, m)
    requires SizeFieldRefused(lib, m.msg.name, Frame(lib, inverse, keys, m))
    requires Flatten(net) <= Frame(lib, inverse, keys, m)
    requires CutInSize(net) && Decode(lib, ident, Source([], net), keys).0.Delivered?
    ensures SizeSeenAsZero(m, net)
  {
    hide ReadFrom, SizeReader, SizeWriter, Flatten, WholeIn, Decode, ReadSize, Payload, Frame, HeaderRest;
    var frame, s := Frame(lib, inverse, keys, m), AfterType(Source([], net));
    var k := CutSizeSeen(lib, inverse, ident, keys, m, net);
    var (size, s1) := ReadSize(s);
    ReadTakes(s1, size, frame, 11 + k, |Flatten(net)|);
    var v := ReadFrom(s1, size).0.data;
    assert v == frame[11 + k..11 + k + |v|];
    ZeroSizeIsZeros(SizeWriter(|m.raw|)[..k]);
  }

  /** The condition is exact, for payloads of any size: some other message is delivered if and only
      if the size field is the first to be cut, and that after nothing but zeros. */
  lemma PlainFailSafeExactly(lib: Library, inverse: map<string, nat>, ident: IdentMap, keys: Keys, m: Sent,
                             blank: Message, net: seq<ReadEvent>)
    requires Sound(lib) && !keys.Encrypted() && LowBytes(ident)
    requires Sendable(lib, inverse, ident, keys, m)
    requires lib.unmarshal(m.msg.name, []) == Some(blank) && lib.marshal(blank) == Some([])
    requires SizeFieldRefused(lib, m.msg.name, Frame(lib, inverse, keys, m))
    requires Flatten(net) <= Frame(lib, inverse, keys, m)
    ensures var o := Decode(lib, ident, Source([], net), keys).0;
      (o.Delivered? && o.msg != m.msg) <==> (m.raw != [] && CutInSize(net) && SizeSeenAsZero(m, net))
  {
    hide ReadFrom, SizeReader, SizeWriter, DecodeBody, Decode, Flatten, WholeIn, Frame, Payload;
    if CutInSize(net) {
      if SizeSeenAsZero(m, net) {
        CutSizeDeliversBlank(lib, inverse, ident, keys, m, blank, net);
      } else if Decode(lib, ident, Source([], net), keys).0.Delivered? {
        CutSizeNeedsZeros(lib, inverse, ident, keys, m, net);
      }
    } else {
      PlainFailSafe(lib, inverse, ident, keys, m, net);
    }
  }

  /** The simplest failing input: the stream ends right before the size field. */
  lemma TruncationBeforeSizeFails(lib: Library, inverse: map<string, nat>, ident: IdentMap, keys: Keys, m: Sent,
                                  blank: Message)
    requires Sound(lib) && !keys.Encrypted()
    requires Sendable(lib, inverse, ident, keys, m)
    requires lib.unmarshal(m.msg.name, []) == Some(blank)
    ensures var net := [Data(Frame(lib, inverse, keys, m)[..11])];
      Decode(lib, ident, Source([], net), keys).0 == Delivered(blank)
  {
    hide SizeReader, SizeWriter, DecodeBody, Decode, Payload, HeaderRest, Frame;
    FrameShape(lib, inverse, ident, keys, m);
    var front := Frame(lib, inverse, keys, m)[..11];
    var net := [Data(front)];
    assert Flatten(net) == front;
    assert net[1..] == [] && !WholeIn(net[1..], 0, 4);
    AfterTypeOfArrival(front);
    CutSizeDeliversBlank(lib, inverse, ident, keys, m, blank, net);
  }

  /** Any proper front of a plain frame, of any payload size, arriving at once: it is taken for a
      message if and only if it ends within the size field after zeros only. */
  lemma TruncatedFrameDelivers(lib: Library, inverse: map<string, nat>, ident: IdentMap, keys: Keys, m: Sent,
                               blank: Message, t: nat)
    requires Sound(lib) && !keys.Encrypted() && LowBytes(ident)
    requires Sendable(lib, inverse, ident, keys, m) && lib.unmarshal(m.msg.name, []) == Some(blank)
    requires t < |Frame(lib, inverse, keys, m)|
    ensures var front := Frame(lib, inverse, keys, m)[..t];
      Decode(lib, ident, Source([], [Data(front)]), keys).0.Delivered? <==> (11 <= t < 15 && AllZero(front[11..]))
  {
    hide ReadFrom, SizeReader, SizeWriter, DecodeBody, Decode, WholeIn, AllZero, Payload, Frame, HeaderRest;
    var frame := Frame(lib, inverse, keys, m);
    FrameShape(lib, inverse, ident, keys, m);
    var front := frame[..t];
    var net := [Data(front)];
    var s := Source([], net);
    var tail := SizeWriter(|m.raw|) + m.raw;
    var id := inverse[m.msg.name];
    assert Flatten(net) == front && Stream(s) == front;
    if t >= 11 {
      SingleArrivalIsWhole(front);
      WholeHeaderDecodes(lib, ident, keys, id, tail, net);
      var s2 := AfterType(s);
      assert Stream(s2) == frame[11..t];
      if t < 15 {
        AfterTypeOfArrival(front);
        assert frame[11..11 + SizeStep(s2)] == front[11..];
        CutSizeOutcome(lib, m.msg.name, front[11..], keys);
      } else if Decode(lib, ident, s, keys).0.Delivered? {
        WholeSizeDelivers(lib, keys, m, frame, s2, t);
      }
    } else if Decode(lib, ident, s, keys).0.Delivered? {
      TypeIsRight(lib, ident, keys, id, tail, s);
    }
  }

  lemma SingleArrivalIsWhole(front: bytes)
    requires |front| >= 11
    ensures WholeIn([Data(front)], 0, 7) && WholeIn([Data(front)], 7, 4)
    ensures |front| >= 15 ==> WholeIn([Data(front)], 11, 4)
  {
  }

  lemma AfterTypeOfArrival(front: bytes)
    requires 11 <= |front| <= BUFFER_SIZE
    ensures AfterType(Source([], [Data(front)])) == Source(front[11..], [])
    ensures SizeStep(Source(front[11..], [])) == if |front| < 15 then |front| - 11 else SIZE_WIDTH
  {
  }

  /** A stream that ends inside the size field holds a message only if the size reads as 0. */
  lemma CutSizeOutcome(lib: Library, name: string, b: bytes, keys: Keys)
    requires !keys.Encrypted() && |b| < SIZE_WIDTH && lib.unmarshal(name, []).Some?
    ensures DecodeBody(lib, name, Source(b, []), keys).0.Delivered? <==> AllZero(b)
  {
  }
}
