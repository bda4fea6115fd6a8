/** The secure handover: a temporary wrapper over a raw connection is soft-closed, and the same
    connection is wrapped again. */
module Handover {
  import opened Bytes
  import opened Loops
  import opened Lifecycle
  import Progress

  datatype Closer = ByTemp | BySecure | ByBuilder

  datatype Phase = Handshaking | Wrapped | Abandoned

  /** `log` lists who closed the raw connection, in order; `atWrap` is its length when the second
      wrapper was made. */
  datatype Link = Link(temp: Wrapper, secure: Option<Wrapper>, phase: Phase, log: seq<Closer>, atWrap: nat)

  const NEW_LINK := Link(FRESH, None, Handshaking, [], 0)

  /** `Wrap`: the handshake's own `softClose` call has returned, and the connection is wrapped
      again.  `GiveUp`: the handshake fails; only the client's recovery closes the connection. */
  datatype LinkEvent = OfTemp(e: Event) | OfSecure(e: Event) | Wrap(id: nat) | GiveUp(closes: bool)

  function Logged(e: Event, who: Closer): seq<Closer> {
    if e.CloseConn? then [who] else []
  }

  function NextLink(ct: Config, cs: Config, l: Link, e: LinkEvent): Option<Link> {
    match e
    case OfTemp(x) =>
      (match Next(ct, l.temp, x)
       case None => None
       case Some(temp) => Some(l.(temp := temp, log := l.log + Logged(x, ByTemp))))
    case OfSecure(x) =>
      if l.secure.None? then None
      else (match Next(cs, l.secure.value, x)
            case None => None
            case Some(secure) => Some(l.(secure := Some(secure), log := l.log + Logged(x, BySecure))))
    case Wrap(id) =>
      if l.phase.Handshaking? && IsAt(l.temp, id, Returned) && l.temp.calls[id].kind.Soft? then
        Some(l.(secure := Some(FRESH), phase := Wrapped, atWrap := |l.log|))
      else None
    case GiveUp(closes) =>
      if !l.phase.Handshaking? then None
      else Some(l.(phase := Abandoned, log := l.log + if closes then [ByBuilder] else []))
  }

  ghost predicate Run(ct: Config, cs: Config, l: Link, es: seq<LinkEvent>, l': Link)
    decreases |es|
  {
    if es == [] then l' == l
    else NextLink(ct, cs, l, es[0]).Some? && Run(ct, cs, NextLink(ct, cs, l, es[0]).value, es[1..], l')
  }

  function Count(log: seq<Closer>, who: Closer): nat {
    if log == [] then 0 else Count(log[..|log| - 1], who) + if log[|log| - 1] == who then 1 else 0
  }

  lemma CountAdds(log: seq<Closer>, x: Closer, who: Closer)
    ensures Count(log + [x], who) == Count(log, who) + if x == who then 1 else 0
  {
  }

  lemma {:induction false} NoneCounted(log: seq<Closer>, who: Closer)
    ensures Count(log, who) == 0 <==> who !in log
  {
    if log == [] {
    } else {
      NoneCounted(log[..|log| - 1], who);
      assert log == log[..|log| - 1] + [log[|log| - 1]];
    }
  }

  ghost predicate LinkOk(ct: Config, cs: Config, l: Link) {
    && Inv(ct, l.temp) && (l.secure.Some? ==> Inv(cs, l.secure.value))
    && (l.secure.Some? <==> l.phase.Wrapped?)
    && Count(l.log, ByTemp) == l.temp.connCloses
    && Count(l.log, BySecure) == (if l.secure.Some? then l.secure.value.connCloses else 0)
    && (ByBuilder in l.log ==> l.phase.Abandoned?)
    && (l.phase.Wrapped? ==>
          && Done(l.temp) && l.atWrap <= |l.log| == l.atWrap + l.secure.value.connCloses
          && l.atWrap == l.temp.connCloses
          && forall k | l.atWrap <= k < |l.log| :: l.log[k] == BySecure)
    && (!l.phase.Wrapped? ==> |l.log| == l.temp.connCloses + Count(l.log, ByBuilder))
  }

  lemma TempStays(ct: Config, cs: Config, l: Link, x: Event)
    requires LinkOk(ct, cs, l) && NextLink(ct, cs, l, OfTemp(x)).Some?
    ensures LinkOk(ct, cs, NextLink(ct, cs, l, OfTemp(x)).value)
  {
    hide Inv, Next, Done, Count, Logged;
    Stays(ct, l.temp, x);
    FirstIsFinal(ct, l.temp, x);
    CountLogged(l.log, x, ByTemp);
    if l.phase.Wrapped? {
      DoneStays(ct, l.temp, x);
    }
  }

  lemma SecureStays(ct: Config, cs: Config, l: Link, x: Event)
    requires LinkOk(ct, cs, l) && NextLink(ct, cs, l, OfSecure(x)).Some?
    ensures LinkOk(ct, cs, NextLink(ct, cs, l, OfSecure(x)).value)
  {
    hide Inv, Next, Done, Count, Logged;
    Stays(cs, l.secure.value, x);
    FirstIsFinal(cs, l.secure.value, x);
    CountLogged(l.log, x, BySecure);
  }

  lemma WrapStays(ct: Config, cs: Config, l: Link, id: nat)
    requires LinkOk(ct, cs, l) && NextLink(ct, cs, l, Wrap(id)).Some?
    ensures LinkOk(ct, cs, NextLink(ct, cs, l, Wrap(id)).value)
  {
    hide Inv, Next, Done, Count;
    FreshIsOk(cs);
    ReturnedMeansDone(ct, l.temp, id);
    assert Count(l.log, ByBuilder) == 0 by {
      NoneCounted(l.log, ByBuilder);
    }
  }

  lemma GiveUpStays(ct: Config, cs: Config, l: Link, closes: bool)
    requires LinkOk(ct, cs, l) && NextLink(ct, cs, l, GiveUp(closes)).Some?
    ensures LinkOk(ct, cs, NextLink(ct, cs, l, GiveUp(closes)).value)
  {
    hide Inv, Next, Done, Count;
    if closes {
      assert forall who :: Count(l.log + [ByBuilder], who) == Count(l.log, who) + if who == ByBuilder then 1 else 0 by {
        forall who {
          CountAdds(l.log, ByBuilder, who);
        }
      }
    } else {
      assert l.log + [] == l.log;
    }
  }

  lemma LinkStays(ct: Config, cs: Config, l: Link, e: LinkEvent)
    requires LinkOk(ct, cs, l) && NextLink(ct, cs, l, e).Some?
    ensures LinkOk(ct, cs, NextLink(ct, cs, l, e).value)
  {
    hide LinkOk, NextLink;
    match e
    case OfTemp(x) => TempStays(ct, cs, l, x);
    case OfSecure(x) => SecureStays(ct, cs, l, x);
    case Wrap(id) => WrapStays(ct, cs, l, id);
    case GiveUp(closes) => GiveUpStays(ct, cs, l, closes);
  }

  lemma CountLogged(log: seq<Closer>, e: Event, who: Closer)
    ensures forall x :: Count(log + Logged(e, who), x) == Count(log, x) + if e.CloseConn? && x == who then 1 else 0
    ensures forall x :: x in log + Logged(e, who) <==> x in log || (e.CloseConn? && x == who)
    ensures |log + Logged(e, who)| == |log| + if e.CloseConn? then 1 else 0
    ensures e.CloseConn? ==> log + Logged(e, who) == log + [who]
    ensures !e.CloseConn? ==> log + Logged(e, who) == log
  {
    if e.CloseConn? {
      forall x {
        CountAdds(log, who, x);
      }
    } else {
      assert log + [] == log;
    }
  }

  lemma ReturnedMeansDone(c: Config, w: Wrapper, id: nat)
    requires Inv(c, w) && IsAt(w, id, Returned)
    ensures Done(w)
  {
  }

  lemma {:induction false} RunKeepsLink(ct: Config, cs: Config, l: Link, es: seq<LinkEvent>, l': Link)
    requires LinkOk(ct, cs, l) && Run(ct, cs, l, es, l')
    ensures LinkOk(ct, cs, l')
    decreases |es|
  {
    hide LinkOk, NextLink;
    if es == [] {
    } else {
      LinkStays(ct, cs, l, es[0]);
      RunKeepsLink(ct, cs, NextLink(ct, cs, l, es[0]).value, es[1..], l');
    }
  }

  /** Safe handover, in every interleaving: once the connection is wrapped again nobody but the
      secure wrapper's own effective `Close` closes it, and that at most once. */
  lemma OnlySecureCloses(ct: Config, cs: Config, es: seq<LinkEvent>, l: Link)
    requires Run(ct, cs, NEW_LINK, es, l) && l.phase.Wrapped?
    ensures l.secure.Some? && l.atWrap <= |l.log| <= l.atWrap + 1
    ensures forall k | l.atWrap <= k < |l.log| :: l.log[k] == BySecure
    ensures |l.log| > l.atWrap ==> l.secure.value.first == Some(Hard)
    ensures l.secure.value.mutex.None? ==> (|l.log| > l.atWrap <==> l.secure.value.first == Some(Hard))
  {
    hide Next, Loops.ReaderOk, Loops.WriterOk;
    FreshIsOk(ct);
    FreshIsOk(cs);
    RunKeepsLink(ct, cs, NEW_LINK, es, l);
  }

  /** If `softClose` was the temporary wrapper's first effective call, the temporary wrapper never
      closes the connection, before or after; if `Close` was, the connection was already closed
      when it was wrapped again. */
  lemma TempNeverClosesAfterSoftClose(ct: Config, cs: Config, es: seq<LinkEvent>, l: Link)
    requires Run(ct, cs, NEW_LINK, es, l)
    ensures l.temp.first == Some(Soft) ==> ByTemp !in l.log
    ensures l.phase.Wrapped? ==> l.temp.first.Some? && (l.atWrap == 0 <==> l.temp.first == Some(Soft))
  {
    hide Next, Loops.ReaderOk, Loops.WriterOk, NextLink;
    FreshIsOk(ct);
    RunKeepsLink(ct, cs, NEW_LINK, es, l);
    NoneCounted(l.log, ByTemp);
    TwoKinds(l.temp.first);
  }

  /** A server that gives up does not close the connection itself: it stays open exactly when its
      `softClose` came first, for the `Close` after it then does nothing. */
  lemma AbandonedStaysOpenIffSoftCloseCameFirst(ct: Config, cs: Config, es: seq<LinkEvent>, l: Link)
    requires Run(ct, cs, NEW_LINK, es, l) && l.phase.Abandoned? && ByBuilder !in l.log
    requires l.temp.mutex.None? && l.temp.closed
    ensures l.log == [] <==> l.temp.first == Some(Soft)
  {
    hide Next, Loops.ReaderOk, Loops.WriterOk, NextLink;
    FreshIsOk(ct);
    RunKeepsLink(ct, cs, NEW_LINK, es, l);
    NoneCounted(l.log, ByTemp);
    NoneCounted(l.log, ByBuilder);
    TwoKinds(l.temp.first);
  }

  /** Who gave up, by the events: the connection is closed by the builder if and only if the client's
      recovery ran, and a link is abandoned if and only if somebody gave up. */
  lemma {:induction false} GaveUp(ct: Config, cs: Config, l: Link, es: seq<LinkEvent>, l': Link)
    requires Run(ct, cs, l, es, l')
    ensures ByBuilder in l'.log <==> ByBuilder in l.log || GiveUp(true) in es
    ensures l'.phase.Abandoned? <==> l.phase.Abandoned? || GiveUp(true) in es || GiveUp(false) in es
    decreases |es|
  {
    if es == [] {
    } else {
      GiveUpStep(ct, cs, l, es[0]);
      assert es == [es[0]] + es[1..];
      hide NextLink;
      GaveUp(ct, cs, NextLink(ct, cs, l, es[0]).value, es[1..], l');
    }
  }

  lemma GiveUpStep(ct: Config, cs: Config, l: Link, e: LinkEvent)
    requires NextLink(ct, cs, l, e).Some?
    ensures var l' := NextLink(ct, cs, l, e).value;
      && (ByBuilder in l'.log <==> ByBuilder in l.log || e == GiveUp(true))
      && (l'.phase.Abandoned? <==> l.phase.Abandoned? || e.GiveUp?)
  {
    hide Next;
  }

  lemma AbandonedIff(ct: Config, cs: Config, es: seq<LinkEvent>, l: Link)
    requires Run(ct, cs, NEW_LINK, es, l)
    ensures l.phase.Abandoned? <==> GiveUp(true) in es || GiveUp(false) in es
    ensures ByBuilder in l.log <==> GiveUp(true) in es
  {
    hide Run;
    GaveUp(ct, cs, NEW_LINK, es, l);
  }

  function TempEvents(es: seq<Event>): seq<LinkEvent> {
    if es == [] then [] else [OfTemp(es[0])] + TempEvents(es[1..])
  }

  function ClosingsIn(es: seq<Event>, who: Closer): seq<Closer> {
    if es == [] then [] else Logged(es[0], who) + ClosingsIn(es[1..], who)
  }

  /** What a temporary wrapper does alone, the link does. */
  lemma {:induction false} LiftTemp(ct: Config, cs: Config, l: Link, es: seq<Event>, temp: Wrapper)
    requires Lifecycle.Run(ct, l.temp, es, temp)
    ensures Run(ct, cs, l, TempEvents(es), l.(temp := temp, log := l.log + ClosingsIn(es, ByTemp)))
    decreases |es|
  {
    hide Next, Logged;
    if es == [] {
      assert l.log + [] == l.log;
    } else {
      var l1 := l.(temp := Next(ct, l.temp, es[0]).value, log := l.log + Logged(es[0], ByTemp));
      LiftTemp(ct, cs, l1, es[1..], temp);
      assert TempEvents(es)[1..] == TempEvents(es[1..]);
      assert l1.log + ClosingsIn(es[1..], ByTemp) == l.log + ClosingsIn(es, ByTemp);
    }
  }

  function SecureEvents(es: seq<Event>): seq<LinkEvent> {
    if es == [] then [] else [OfSecure(es[0])] + SecureEvents(es[1..])
  }

  lemma {:induction false} LiftSecure(ct: Config, cs: Config, l: Link, es: seq<Event>, secure: Wrapper)
    requires l.secure.Some? && Lifecycle.Run(cs, l.secure.value, es, secure)
    ensures Run(ct, cs, l, SecureEvents(es), l.(secure := Some(secure), log := l.log + ClosingsIn(es, BySecure)))
    decreases |es|
  {
    hide Next, Logged;
    if es == [] {
      assert l.log + [] == l.log;
    } else {
      var l1 := l.(secure := Some(Next(cs, l.secure.value, es[0]).value), log := l.log + Logged(es[0], BySecure));
      LiftSecure(ct, cs, l1, es[1..], secure);
      assert SecureEvents(es)[1..] == SecureEvents(es[1..]);
      assert l1.log + ClosingsIn(es[1..], BySecure) == l.log + ClosingsIn(es, BySecure);
    }
  }

  lemma {:induction false} RunJoins(ct: Config, cs: Config, l: Link, es: seq<LinkEvent>, l': Link,
                                    es': seq<LinkEvent>, l'': Link)
    requires Run(ct, cs, l, es, l') && Run(ct, cs, l', es', l'')
    ensures Run(ct, cs, l, es + es', l'')
    decreases |es|
  {
    hide NextLink;
    if es == [] {
      assert es + es' == es';
    } else {
      RunJoins(ct, cs, NextLink(ct, cs, l, es[0]).value, es[1..], l', es', l'');
      assert (es + es')[1..] == es[1..] + es' && (es + es')[0] == es[0];
    }
  }

  /** The handover does happen: there is a run that wraps the connection again, with nobody having closed
      it and a secure wrapper that is as new. */
  lemma HandoverHappens(ct: Config, cs: Config) returns (es: seq<LinkEvent>, l: Link)
    requires !ct.websocket
    ensures Run(ct, cs, NEW_LINK, es, l)
    ensures l.phase.Wrapped? && l.log == [] && l.atWrap == 0 && l.secure == Some(FRESH) && l.temp.first == Some(Soft)
  {
    hide Run, Lifecycle.Run, Next;
    RunOfNothing(ct);
    var steps, temp := SoftCloseAlone(ct, [], FRESH, 0);
    LiftTemp(ct, cs, NEW_LINK, steps, temp);
    var l1 := NEW_LINK.(temp := temp, log := [] + ClosingsIn(steps, ByTemp));
    es := TempEvents(steps);
    TempNeverClosesAfterSoftClose(ct, cs, es, l1);
    NoneOrSome(steps, ByTemp);
    assert l1.log == [];
    l := l1.(secure := Some(FRESH), phase := Wrapped, atWrap := 0);
    assert NextLink(ct, cs, l1, Wrap(0)) == Some(l);
    OneStep(ct, cs, l1, Wrap(0), l);
    RunJoins(ct, cs, NEW_LINK, es, l1, [Wrap(0)], l);
    es := es + [Wrap(0)];
  }

  lemma RunOfNothing(c: Config)
    ensures Lifecycle.Run(c, FRESH, [], FRESH)
  {
  }

  lemma OneStep(ct: Config, cs: Config, l: Link, e: LinkEvent, l': Link)
    requires NextLink(ct, cs, l, e) == Some(l')
    ensures Run(ct, cs, l, [e], l')
  {
    assert Run(ct, cs, l', [], l');
  }

  lemma {:induction false} NoneOrSome(es: seq<Event>, who: Closer)
    ensures forall x | x in ClosingsIn(es, who) :: x == who
    ensures who !in ClosingsIn(es, who) ==> ClosingsIn(es, who) == []
  {
    if es == [] {
    } else {
      NoneOrSome(es[1..], who);
    }
  }

  /** And then the secure wrapper can close the connection, once. */
  lemma SecureCanClose(ct: Config, cs: Config) returns (es: seq<LinkEvent>, l: Link)
    requires !ct.websocket
    ensures Run(ct, cs, NEW_LINK, es, l) && l.phase.Wrapped? && l.log == [BySecure]
  {
    hide Run, Lifecycle.Run, Next, NextLink, Done;
    var es1, l1 := HandoverHappens(ct, cs);
    RunOfNothing(cs);
    var steps, secure := Progress.ClosingIsAlwaysPossible(cs, [], FRESH, Begin(0, Hard), 0, Hard);
    var all := [Begin(0, Hard)] + steps;
    LiftSecure(ct, cs, l1, all, secure);
    l := l1.(secure := Some(secure), log := l1.log + ClosingsIn(all, BySecure));
    RunJoins(ct, cs, NEW_LINK, es1, l1, SecureEvents(all), l);
    es := es1 + SecureEvents(all);
    OnlySecureCloses(ct, cs, es, l);
    NoneOrSome(all, BySecure);
    assert [] + ClosingsIn(all, BySecure) == ClosingsIn(all, BySecure);
  }
}
