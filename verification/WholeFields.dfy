/** A frame of any size whose fields each arrive whole, in whatever grouping. */
module WholeFields {
  import opened Bytes
  import opened Frames
  import opened Network
  import opened StreamDecoder

  /** An arrival for each group of fields. */
  function Arrivals(groups: seq<seq<bytes>>): seq<ReadEvent> {
    if groups == [] then [] else [Data(Concat(groups[0]))] + Arrivals(groups[1..])
  }

  /** Several fields may come together as long as they fit the reader's buffer; a field of its own may
      have any size. */
  predicate Readable(group: seq<bytes>) {
    && group != [] && (forall i | 0 <= i < |group| :: group[i] != [])
    && (|group| == 1 || |Concat(group)| <= BUFFER_SIZE)
  }

  predicate AllReadable(groups: seq<seq<bytes>>) {
    forall i | 0 <= i < |groups| :: Readable(groups[i])
  }

  function FieldsOf(groups: seq<seq<bytes>>): seq<bytes> {
    if groups == [] then [] else groups[0] + FieldsOf(groups[1..])
  }

  /** A reader that holds the fields `cur`, with the groups still to come. */
  function Reading(cur: seq<bytes>, groups: seq<seq<bytes>>, rest: seq<ReadEvent>): Source {
    Source(Concat(cur), Arrivals(groups) + rest)
  }

  lemma ConcatHead(fields: seq<bytes>)
    requires fields != []
    ensures Concat(fields) == fields[0] + Concat(fields[1..])
    ensures |fields| == 1 ==> Concat(fields) == fields[0]
  {
  }

  /** The first read of an arrival. */
  lemma TakesFirst(group: seq<bytes>, net: seq<ReadEvent>)
    requires Readable(group)
    ensures ReadFrom(Source([], [Data(Concat(group))] + net), |group[0]|)
      == (Got(group[0]), Source(Concat(group[1..]), net))
  {
    ConcatHead(group);
    var f, d := group[0], Concat(group);
    assert d[..|f|] == f && d[|f|..] == Concat(group[1..]);
    if |group| > 1 {
      ConcatHead(group[1..]);
      assert group[1] != [];
    } else {
      assert Concat(group[1..]) == [];
    }
  }

  lemma TakesBuffered(cur: seq<bytes>, groups: seq<seq<bytes>>, rest: seq<ReadEvent>)
    requires cur != []
    ensures ReadFrom(Reading(cur, groups, rest), |cur[0]|) == (Got(cur[0]), Reading(cur[1..], groups, rest))
  {
    hide ReadFrom;
    ConcatHead(cur);
    ReadsField(cur[0], Concat(cur[1..]), Arrivals(groups) + rest);
  }

  lemma TakesArrival(groups: seq<seq<bytes>>, rest: seq<ReadEvent>)
    requires groups != [] && Readable(groups[0])
    ensures groups[0] != []
    ensures ReadFrom(Reading([], groups, rest), |groups[0][0]|)
      == (Got(groups[0][0]), Reading(groups[0][1..], groups[1..], rest))
  {
    hide ReadFrom;
    TakesFirst(groups[0], Arrivals(groups[1..]) + rest);
    assert Arrivals(groups) + rest == [Data(Concat(groups[0]))] + (Arrivals(groups[1..]) + rest);
  }

  /** One read takes one field. */
  lemma TakesField(cur: seq<bytes>, groups: seq<seq<bytes>>, rest: seq<ReadEvent>, f: bytes, tail: seq<bytes>)
    returns (cur': seq<bytes>, groups': seq<seq<bytes>>)
    requires AllReadable(groups) && (forall i | 0 <= i < |cur| :: cur[i] != [])
    requires cur + FieldsOf(groups) == [f] + tail
    ensures AllReadable(groups') && (forall i | 0 <= i < |cur'| :: cur'[i] != [])
    ensures cur' + FieldsOf(groups') == tail
    ensures ReadFrom(Reading(cur, groups, rest), |f|) == (Got(f), Reading(cur', groups', rest))
  {
    hide ReadFrom, Readable, Reading;
    assert f == (cur + FieldsOf(groups))[0];
    if cur != [] {
      cur', groups' := cur[1..], groups;
      TakesBuffered(cur, groups, rest);
      assert cur' + FieldsOf(groups) == (cur + FieldsOf(groups))[1..];
    } else {
      assert [] + FieldsOf(groups) == FieldsOf(groups);
      NonEmpty(groups[0]);
      cur', groups' := groups[0][1..], groups[1..];
      TakesArrival(groups, rest);
      assert cur' + FieldsOf(groups') == FieldsOf(groups)[1..];
    }
    assert tail == ([f] + tail)[1..];
  }

  lemma NonEmpty(group: seq<bytes>)
    requires Readable(group)
    ensures group != [] && forall i | 0 <= i < |group| :: group[i] != []
  {
  }

  lemma TakesSize(cur: seq<bytes>, groups: seq<seq<bytes>>, rest: seq<ReadEvent>, n: nat, tail: seq<bytes>)
    returns (cur': seq<bytes>, groups': seq<seq<bytes>>)
    requires AllReadable(groups) && (forall i | 0 <= i < |cur| :: cur[i] != [])
    requires cur + FieldsOf(groups) == [SizeWriter(n)] + tail && n < TWO_TO_THE_32
    ensures AllReadable(groups') && (forall i | 0 <= i < |cur'| :: cur'[i] != [])
    ensures cur' + FieldsOf(groups') == tail
    ensures ReadSize(Reading(cur, groups, rest)) == (n, Reading(cur', groups', rest))
  {
    hide ReadFrom, SizeReader, SizeWriter, Reading;
    cur', groups' := TakesField(cur, groups, rest, SizeWriter(n), tail);
    assert Padded(SizeWriter(n), SIZE_WIDTH) == SizeWriter(n);
    SizeReaderInvertsWriter(n);
  }

  function FrameFields(lib: Library, inverse: map<string, nat>, keys: Keys, m: Sent): seq<bytes>
    requires m.msg.name in inverse
  {
    [PREAMBLE] + ([SizeWriter(inverse[m.msg.name])] + BodyFields(lib, keys, m))
  }

  function BodyFields(lib: Library, keys: Keys, m: Sent): seq<bytes> {
    var payload := Payload(lib, m, keys);
    var last := [SizeWriter(|payload|)] + if payload == [] then [] else [payload];
    if keys.Encrypted() then [SizeWriter(MAC_SIZE)] + last else last
  }

  lemma BodyArrivesWhole(lib: Library, keys: Keys, m: Sent, cur: seq<bytes>, groups: seq<seq<bytes>>,
                         rest: seq<ReadEvent>)
    requires Sound(lib) && lib.marshal(m.msg) == Some(m.raw) && |m.nonce| == NONCE_SIZE
    requires |Payload(lib, m, keys)| < TWO_TO_THE_32
    requires AllReadable(groups) && (forall i | 0 <= i < |cur| :: cur[i] != [])
    requires cur + FieldsOf(groups) == BodyFields(lib, keys, m)
    ensures DecodeBody(lib, m.msg.name, Reading(cur, groups, rest), keys) == (Delivered(m.msg), Source([], rest))
  {
    hide ReadFrom, ReadSize, SizeReader, SizeWriter, Payload, Unpack, AllReadable;
    var payload := Payload(lib, m, keys);
    var last := [SizeWriter(|payload|)] + if payload == [] then [] else [payload];
    var c1, g1 := cur, groups;
    if keys.Encrypted() {
      c1, g1 := TakesSize(cur, groups, rest, MAC_SIZE, last);
    }
    var c2, g2 := TakesSize(c1, g1, rest, |payload|, if payload == [] then [] else [payload]);
    PayloadUnpacks(lib, keys, m, if keys.Encrypted() then MAC_SIZE else 0);
    if payload == [] {
      NothingLeft(c2, g2, rest);
      ReadsField([], [], rest);
    } else {
      var c3, g3 := TakesField(c2, g2, rest, payload, []);
      NothingLeft(c3, g3, rest);
    }
  }

  lemma FieldsNonEmpty(groups: seq<seq<bytes>>)
    requires AllReadable(groups) && groups != []
    ensures FieldsOf(groups) != []
  {
    assert Readable(groups[0]);
  }

  lemma NothingLeft(cur: seq<bytes>, groups: seq<seq<bytes>>, rest: seq<ReadEvent>)
    requires AllReadable(groups) && cur + FieldsOf(groups) == []
    ensures Reading(cur, groups, rest) == Source([], rest)
  {
    hide AllReadable, FieldsOf;
    if groups != [] {
      FieldsNonEmpty(groups);
    }
    assert [] + rest == rest;
  }

  /** A frame of any size is delivered, and nothing of what follows it is touched, when each of its
      fields, payload included, arrives whole. */
  lemma FieldsArriveWhole(lib: Library, inverse: map<string, nat>, ident: IdentMap, keys: Keys, m: Sent,
                          groups: seq<seq<bytes>>, rest: seq<ReadEvent>)
    requires Sound(lib) && Sendable(lib, inverse, ident, keys, m)
    requires AllReadable(groups) && FieldsOf(groups) == FrameFields(lib, inverse, keys, m)
    ensures Decode(lib, ident, Source([], Arrivals(groups) + rest), keys) == (Delivered(m.msg), Source([], rest))
  {
    hide ReadFrom, ReadSize, SizeReader, SizeWriter, DecodeBody, Payload, BodyFields, AllReadable;
    var id := inverse[m.msg.name];
    var body := BodyFields(lib, keys, m);
    assert [] + FieldsOf(groups) == FieldsOf(groups);
    var c1, g1 := TakesField([], groups, rest, PREAMBLE, [SizeWriter(id)] + body);
    assert Padded(PREAMBLE, PREAMBLE_SIZE) == PREAMBLE;
    var c2, g2 := TakesSize(c1, g1, rest, id, body);
    BodyArrivesWhole(lib, keys, m, c2, g2, rest);
  }
}
