/** The receiving side of a connection: what each underlying read finds, and a buffered reader on top. */
module Network {
  import opened Bytes

  /** One underlying read: the bytes that have arrived by then, or an error (`eof` tells which). */
  datatype ReadEvent = Data(data: bytes) | Fault(eof: bool)

  datatype ReadResult = Got(data: bytes) | ReadFailed(eof: bool)

  /** The buffer a fresh `bufio.Reader` makes. */
  const BUFFER_SIZE := 4096

  /** A buffered reader together with the connection it reads from. */
  datatype Source = Source(buf: bytes, net: seq<ReadEvent>)

  function Flatten(net: seq<ReadEvent>): bytes {
    if net == [] then []
    else (match net[0] case Data(d) => d case Fault(_) => []) + Flatten(net[1..])
  }

  /** Every byte still to come. */
  function Stream(s: Source): bytes {
    s.buf + Flatten(s.net)
  }

  /** One read of the connection into `limit` bytes; what did not fit stays for the next read.
      When nothing is left the peer has closed its side. */
  function ReadNet(net: seq<ReadEvent>, limit: nat): (r: (ReadResult, seq<ReadEvent>))
    ensures r.0.Got? ==> |r.0.data| <= limit
  {
    if net == [] then (ReadFailed(true), [])
    else match net[0]
      case Fault(eof) => (ReadFailed(eof), net[1..])
      case Data(d) =>
        if |d| <= limit then (Got(d), net[1..])
        else (Got(d[..limit]), [Data(d[limit..])] + net[1..])
  }

  /** `bufio.Reader.Read`: at most one underlying read, and only when the buffer is empty; a read
      at least as large as the buffer goes straight to the connection. */
  function ReadFrom(s: Source, n: nat): (r: (ReadResult, Source))
    ensures r.0.Got? ==> |r.0.data| <= n
  {
    if n == 0 then (Got([]), s)
    else if s.buf != [] then
      var k := if n <= |s.buf| then n else |s.buf|;
      (Got(s.buf[..k]), s.(buf := s.buf[k..]))
    else if n >= BUFFER_SIZE then
      var (r, net) := ReadNet(s.net, n);
      (r, Source([], net))
    else
      var (r, net) := ReadNet(s.net, BUFFER_SIZE);
      match r
      case ReadFailed(_) => (r, Source([], net))
      case Got(d) =>
        var k := if n <= |d| then n else |d|;
        (Got(d[..k]), Source(d[k..], net))
  }

  lemma ReadNetConserves(net: seq<ReadEvent>, limit: nat)
    ensures var (r, net') := ReadNet(net, limit);
      Flatten(net) == (if r.Got? then r.data else []) + Flatten(net')
  {
    if net != [] && net[0].Data? && |net[0].data| > limit {
      var d := net[0].data;
      var net' := [Data(d[limit..])] + net[1..];
      assert net'[1..] == net[1..];
      assert d[..limit] + d[limit..] == d;
    }
  }

  /** Reads never lose, invent or reorder bytes. */
  lemma ReadConserves(s: Source, n: nat)
    ensures var (r, s') := ReadFrom(s, n);
      Stream(s) == (if r.Got? then r.data else []) + Stream(s')
  {
    hide Flatten, ReadNet;
    if n > 0 && s.buf == [] {
      ReadNetConserves(s.net, if n >= BUFFER_SIZE then n else BUFFER_SIZE);
    }
  }

  /** A read that something is at hand for does not look past it. */
  lemma ReadIsLocal(buf: bytes, net: seq<ReadEvent>, rest: seq<ReadEvent>, n: nat)
    requires n == 0 || buf != [] || net != []
    ensures var (r, s) := ReadFrom(Source(buf, net), n);
      ReadFrom(Source(buf, net + rest), n) == (r, Source(s.buf, s.net + rest))
  {
    if n > 0 && buf == [] {
      assert (net + rest)[1..] == net[1..] + rest;
      if net[0].Data? {
        var limit := if n >= BUFFER_SIZE then n else BUFFER_SIZE;
        assert forall x :: [Data(x)] + (net[1..] + rest) == [Data(x)] + net[1..] + rest;
      }
    }
  }

  /** The `n` bytes at `offset` lie within one arrival, and nothing fails or comes empty before them. */
  predicate WholeIn(net: seq<ReadEvent>, offset: nat, n: nat) {
    && net != [] && net[0].Data? && net[0].data != []
    && var size := |net[0].data|;
       if size <= offset then WholeIn(net[1..], offset - size, n) else offset + n <= size
  }

  predicate Whole(s: Source, offset: nat, n: nat) {
    if s.buf == [] then WholeIn(s.net, offset, n) else WholeIn([Data(s.buf)] + s.net, offset, n)
  }

  /** A field is read in full exactly when it lies within one arrival. */
  lemma ReadGetsWhole(s: Source, n: nat)
    requires 0 < n < BUFFER_SIZE
    ensures Whole(s, 0, n) <==> ReadFrom(s, n).0.Got? && |ReadFrom(s, n).0.data| == n
  {
  }

  /** After a field was read in full, later fields are whole or not just as before. */
  lemma WholeShifts(s: Source, n: nat, offset: nat, m: nat)
    requires 0 < n && 0 < m && n + offset + m <= BUFFER_SIZE && Whole(s, 0, n)
    ensures Whole(ReadFrom(s, n).1, offset, m) <==> Whole(s, n + offset, m)
  {
  }

  /** The connection itself. */
  class Conn {
    var events: seq<ReadEvent>

    constructor (events: seq<ReadEvent>)
      ensures this.events == events
    {
      this.events := events;
    }

    method Read(limit: nat) returns (r: ReadResult)
      modifies this
      ensures (r, events) == ReadNet(old(events), limit)
    {
      if events == [] {
        return ReadFailed(true);
      }
      match events[0]
      case Fault(eof) =>
        events := events[1..];
        r := ReadFailed(eof);
      case Data(d) =>
        if |d| <= limit {
          events := events[1..];
          r := Got(d);
        } else {
          events := [Data(d[limit..])] + events[1..];
          r := Got(d[..limit]);
        }
    }
  }

  class BufferedReader {
    const conn: Conn
    var buf: bytes

    function View(): Source
      reads this, conn
    {
      Source(buf, conn.events)
    }

    constructor (conn: Conn)
      ensures this.conn == conn && View() == Source([], conn.events)
    {
      this.conn := conn;
      buf := [];
    }

    method Read(n: nat) returns (r: ReadResult)
      modifies this, conn
      ensures (r, View()) == ReadFrom(old(View()), n)
    {
      if n == 0 {
        return Got([]);
      }
      if buf == [] {
        if n >= BUFFER_SIZE {
          r := conn.Read(n);
          return;
        }
        r := conn.Read(BUFFER_SIZE);
        if r.ReadFailed? {
          return;
        }
        buf := r.data;
        if buf == [] {
          return;
        }
      }
      var k := if n <= |buf| then n else |buf|;
      r := Got(buf[..k]);
      buf := buf[k..];
    }
  }
}
