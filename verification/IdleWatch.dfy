/** The idle watcher, in discrete time (microseconds). */
module IdleWatch {
  import opened Bytes

  const DEFAULT_POLL := 333
  const DEFAULT_IDLE := 300_000_000

  /** The time of the last communication as seen at `t`: the latest successful send, or the
      creation of the wrapper.  Receiving leaves it alone. */
  function LastComm(created: nat, sends: seq<nat>, t: nat): nat {
    if sends == [] then created
    else if sends[|sends| - 1] <= t then sends[|sends| - 1]
    else LastComm(created, sends[..|sends| - 1], t)
  }

  predicate Ordered(created: nat, sends: seq<nat>) {
    && (forall i | 0 <= i < |sends| :: created <= sends[i])
    && (forall i, j | 0 <= i < j < |sends| :: sends[i] <= sends[j])
  }

  /** `LastComm` is the last send up to `t`, if there is one. */
  lemma {:induction false} LastCommIsLatest(created: nat, sends: seq<nat>, t: nat)
    requires Ordered(created, sends) && created <= t
    ensures created <= LastComm(created, sends, t) <= t
    ensures LastComm(created, sends, t) == created || LastComm(created, sends, t) in sends
    ensures forall i | 0 <= i < |sends| && sends[i] <= t :: sends[i] <= LastComm(created, sends, t)
  {
    if sends != [] && sends[|sends| - 1] > t {
      var front := sends[..|sends| - 1];
      LastCommIsLatest(created, front, t);
      forall i | 0 <= i < |sends| && sends[i] <= t
        ensures sends[i] <= LastComm(created, sends, t)
      {
        assert i < |front| && front[i] == sends[i];
      }
    }
  }

  lemma LastCommGrows(created: nat, sends: seq<nat>, t: nat, u: nat)
    requires Ordered(created, sends) && created <= t <= u
    ensures LastComm(created, sends, t) <= LastComm(created, sends, u)
  {
    LastCommIsLatest(created, sends, t);
    LastCommIsLatest(created, sends, u);
  }

  /** Polls every `after` from `start` on until the idle bound is reached, and returns when that
      is; a negative interval panics.  From `quiet` on nothing is sent. */
  method CheckAndDoWithDuration(lastComm: nat -> nat, idle: nat, after: int, start: nat, ghost quiet: nat)
    returns (fired: Option<nat>)
    requires forall t: nat | t >= quiet :: lastComm(t) == lastComm(quiet)
    ensures fired.None? <==> after < 0
    ensures fired.Some? ==>
      var t, p := fired.value, if after == 0 then DEFAULT_POLL else after;
      && start <= t && lastComm(t) + idle <= t
      && (t > start ==> t - p >= start && lastComm(t - p) + idle > t - p)
      && (t > start ==> t < quiet + p || t < lastComm(quiet) + idle + p)
  {
    var p := if after == 0 then DEFAULT_POLL else after;
    if p < 0 {
      return None;
    }
    var t := start;
    while lastComm(t) + idle > t
      invariant t >= start
      invariant t > start ==> t - p >= start && lastComm(t - p) + idle > t - p
      decreases quiet + lastComm(quiet) + idle - t
    {
      assert t < quiet || lastComm(t) == lastComm(quiet);
      t := t + p;
    }
    fired := Some(t);
  }

  function Last(created: nat, sends: seq<nat>): nat {
    if sends == [] then created else sends[|sends| - 1]
  }

  /** The TCP wrapper polls at the idle bound itself: it closes at least that long and less than
      twice that long after the last send before it, and it does close once sends stop. */
  method WatchTcp(created: nat, sends: seq<nat>, txRxIdleDuration: int) returns (t: nat)
    requires Ordered(created, sends)
    ensures var d := if txRxIdleDuration <= 0 then DEFAULT_IDLE else txRxIdleDuration;
      var last := LastComm(created, sends, t);
      && last + d <= t < last + 2 * d
      && (forall i | 0 <= i < |sends| :: sends[i] <= last || sends[i] > t)
      && t < Last(created, sends) + 2 * d
  {
    var d := if txRxIdleDuration <= 0 then DEFAULT_IDLE else txRxIdleDuration;
    var quiet := Last(created, sends);
    LastCommIsLatest(created, sends, created);
    var fired := CheckAndDoWithDuration(u => LastComm(created, sends, u), d, d, created, quiet);
    t := fired.value;
    LastCommIsLatest(created, sends, t);
    LastCommGrows(created, sends, t - d, t);
  }

  /** In the websocket wrapper neither sends nor receives move the time of the last communication,
      so it is closed by its age, however busy it is; a negative duration panics. */
  method WatchWs(created: nat, txRxIdleDuration: int) returns (fired: Option<nat>)
    ensures fired.None? <==> txRxIdleDuration < 0
    ensures fired.Some? ==>
      var d := if txRxIdleDuration == 0 then DEFAULT_IDLE else txRxIdleDuration;
      var p := if txRxIdleDuration == 0 then DEFAULT_POLL else txRxIdleDuration;
      created + d <= fired.value < created + d + p
  {
    var d := if txRxIdleDuration <= 0 then DEFAULT_IDLE else txRxIdleDuration;
    fired := CheckAndDoWithDuration(_ => created, d, txRxIdleDuration, created, created);
  }
}
