/** Key agreement between a secure server and any number of clients. */
module Handshake {
  import opened Bytes

  const KEY_SIZE := 32

  datatype ApiKey = ApiKey(encKey: bytes, hmacKey: bytes)

  /** RSA encryption of the message that holds the two keys; keys of the key pair are numbers. */
  datatype Rsa = Rsa(pubOf: nat -> nat, encrypt: (nat, ApiKey, nat) -> bytes, decrypt: (nat, bytes) -> Option<ApiKey>)

  ghost predicate RsaInverts(rsa: Rsa) {
    forall priv: nat, a: ApiKey, r: nat :: rsa.decrypt(priv, rsa.encrypt(rsa.pubOf(priv), a, r)) == Some(a)
  }

  datatype WireMsg = PublicKeyMsg(key: nat) | EncryptedMsg(ct: bytes) | OtherMsg

  datatype ClientPc = AwaitingKey | Sending(ct: bytes) | Connected | ClientFailed

  /** A client with the keys it generated; an insecure one takes no part in the handshake and may put
      anything on its connection. */
  datatype Client = Client(pc: ClientPc, encKey: bytes, hmacKey: bytes, secure: bool)

  datatype ServerPc = Accepting | SendingKey(c: nat) | AwaitingMsg(c: nat) | Opening(c: nat, msg: WireMsg)
      | Adding(c: nat, enc: bytes, mac: bytes)

  /** Everything each end ever wrote on a connection; a receiver may see any of it, so loss,
      repetition and reordering are included. */
  datatype System = System(
    clients: map<nat, Client>, accepted: set<nat>,
    toServer: map<nat, set<WireMsg>>, toClient: map<nat, set<WireMsg>>,
    server: ServerPc, added: map<nat, ApiKey>)

  const START := System(map[], {}, map[], map[], Accepting, map[])

  datatype Event =
    | Dial(c: nat, encKey: bytes, hmacKey: bytes, secure: bool)
    | Accept(c: nat)
    | ServerSendsKey
    | ClientReceives(c: nat, msg: WireMsg, r: nat)
    | ClientSends(c: nat)
    | ClientTalks(c: nat, msg: WireMsg)
    | ServerReceives(msg: WireMsg)
    | ServerOpens
    | ServerAdds

  /** A zeroed key array after copying `src` into it. */
  function KeyArray(src: bytes): (key: bytes)
    ensures |key| == KEY_SIZE
    ensures |src| == KEY_SIZE ==> key == src
  {
    if |src| >= KEY_SIZE then src[..KEY_SIZE] else Padded(src, KEY_SIZE)
  }

  /** Go's `copy`: as many bytes as both sides hold. */
  method CopyKey(dst: array<byte>, src: bytes)
    requires dst.Length == KEY_SIZE && AllZero(dst[..])
    modifies dst
    ensures dst[..] == KeyArray(src)
  {
    var n := if |src| < dst.Length then |src| else dst.Length;
    for i := 0 to n
      invariant forall j | 0 <= j < i :: dst[j] == src[j]
      invariant forall j | i <= j < dst.Length :: dst[j] == old(dst[..])[j]
    {
      dst[i] := src[i];
    }
    assert forall j | 0 <= j < KEY_SIZE :: dst[..][j] == KeyArray(src)[j];
  }

  function Put(m: map<nat, set<WireMsg>>, c: nat, msg: WireMsg): map<nat, set<WireMsg>> {
    m[c := (if c in m then m[c] else {}) + {msg}]
  }

  predicate Seen(m: map<nat, set<WireMsg>>, c: nat, msg: WireMsg) {
    c in m && msg in m[c]
  }

  function Next(rsa: Rsa, priv: nat, s: System, e: Event): Option<System> {
    match e
    case Dial(c, encKey, hmacKey, secure) =>
      if c in s.clients || |encKey| != KEY_SIZE || |hmacKey| != KEY_SIZE then None
      else Some(s.(clients := s.clients[c := Client(AwaitingKey, encKey, hmacKey, secure)]))
    case Accept(c) =>
      if s.server.Accepting? && c in s.clients && c !in s.accepted then
        Some(s.(server := SendingKey(c), accepted := s.accepted + {c}))
      else None
    case ServerSendsKey =>
      if s.server.SendingKey? then
        Some(s.(server := AwaitingMsg(s.server.c),
                toClient := Put(s.toClient, s.server.c, PublicKeyMsg(rsa.pubOf(priv)))))
      else None
    case ClientReceives(c, msg, r) =>
      if c in s.clients && s.clients[c].secure && s.clients[c].pc.AwaitingKey? && Seen(s.toClient, c, msg) then
        var k := s.clients[c];
        var pc := if msg.PublicKeyMsg? then Sending(rsa.encrypt(msg.key, ApiKey(k.encKey, k.hmacKey), r))
                  else ClientFailed;
        Some(s.(clients := s.clients[c := k.(pc := pc)]))
      else None
    case ClientSends(c) =>
      if c in s.clients && s.clients[c].pc.Sending? then
        Some(s.(clients := s.clients[c := s.clients[c].(pc := Connected)],
                toServer := Put(s.toServer, c, EncryptedMsg(s.clients[c].pc.ct))))
      else None
    case ClientTalks(c, msg) =>
      if c in s.clients && (!s.clients[c].secure || (s.clients[c].pc.Connected? && msg.OtherMsg?)) then
        Some(s.(toServer := Put(s.toServer, c, msg)))
      else None
    case ServerReceives(msg) =>
      if s.server.AwaitingMsg? && Seen(s.toServer, s.server.c, msg) then
        Some(s.(server := Opening(s.server.c, msg)))
      else None
    case ServerOpens =>
      if !s.server.Opening? then None
      else if !s.server.msg.EncryptedMsg? then Some(s.(server := Accepting))
      else (match rsa.decrypt(priv, s.server.msg.ct)
            case None => Some(s.(server := Accepting))
            case Some(a) => Some(s.(server := Adding(s.server.c, KeyArray(a.encKey), KeyArray(a.hmacKey)))))
    case ServerAdds =>
      if s.server.Adding? then
        Some(s.(server := Accepting, added := s.added[s.server.c := ApiKey(s.server.enc, s.server.mac)]))
      else None
  }

  /** The keys of this client, if it is a secure one. */
  predicate Generated(s: System, c: nat, a: ApiKey) {
    c in s.clients && (s.clients[c].secure ==> a == ApiKey(s.clients[c].encKey, s.clients[c].hmacKey))
  }

  /** These keys are the ones that an encrypted message on this connection opens to. */
  ghost predicate FromWire(rsa: Rsa, priv: nat, s: System, c: nat, keys: ApiKey) {
    exists ct: bytes :: Seen(s.toServer, c, EncryptedMsg(ct)) && Opens(rsa, priv, ct, keys)
  }

  predicate Opens(rsa: Rsa, priv: nat, ct: bytes, keys: ApiKey) {
    match rsa.decrypt(priv, ct)
    case None => false
    case Some(a) => keys == ApiKey(KeyArray(a.encKey), KeyArray(a.hmacKey))
  }

  ghost predicate Inv(rsa: Rsa, priv: nat, s: System) {
    && (forall c | c in s.clients :: |s.clients[c].encKey| == KEY_SIZE && |s.clients[c].hmacKey| == KEY_SIZE)
    && (forall c, msg | Seen(s.toClient, c, msg) :: msg == PublicKeyMsg(rsa.pubOf(priv)))
    && (forall c | c in s.clients && s.clients[c].pc.Sending? ::
          s.clients[c].secure && rsa.decrypt(priv, s.clients[c].pc.ct)
              == Some(ApiKey(s.clients[c].encKey, s.clients[c].hmacKey)))
    && (forall c, msg | Seen(s.toServer, c, msg) ::
          && c in s.clients
          && (msg.EncryptedMsg? && rsa.decrypt(priv, msg.ct).Some? ==>
                Generated(s, c, rsa.decrypt(priv, msg.ct).value)))
    && (s.server.Opening? ==> Seen(s.toServer, s.server.c, s.server.msg))
    && s.accepted <= s.clients.Keys
    && (s.server.Adding? ==> FromWire(rsa, priv, s, s.server.c, ApiKey(s.server.enc, s.server.mac)))
    && (forall c | c in s.added :: FromWire(rsa, priv, s, c, s.added[c]))
  }

  lemma PutSeen(m: map<nat, set<WireMsg>>, c: nat, msg: WireMsg)
    ensures forall d, x :: Seen(Put(m, c, msg), d, x) <==> Seen(m, d, x) || (d == c && x == msg)
  {
  }

  predicate OfClient(e: Event) {
    e.Dial? || e.ClientReceives? || e.ClientSends? || e.ClientTalks?
  }

  lemma WireGrows(rsa: Rsa, priv: nat, s: System, s': System)
    requires forall c, msg :: Seen(s.toServer, c, msg) ==> Seen(s'.toServer, c, msg)
    ensures forall c, keys :: FromWire(rsa, priv, s, c, keys) ==> FromWire(rsa, priv, s', c, keys)
  {
    hide Opens, Seen;
  }

  lemma DialStays(rsa: Rsa, priv: nat, s: System, e: Event)
    requires Inv(rsa, priv, s) && Next(rsa, priv, s, e).Some? && e.Dial?
    ensures Inv(rsa, priv, Next(rsa, priv, s, e).value)
  {
    hide KeyArray, Seen, Put, FromWire;
    var s' := Next(rsa, priv, s, e).value;
    WireGrows(rsa, priv, s, s');
    assert forall c, a :: Generated(s, c, a) ==> Generated(s', c, a);
  }

  lemma SendStays(rsa: Rsa, priv: nat, s: System, e: Event)
    requires Inv(rsa, priv, s) && Next(rsa, priv, s, e).Some? && e.ClientSends?
    ensures Inv(rsa, priv, Next(rsa, priv, s, e).value)
  {
    hide KeyArray, Put, Seen, FromWire;
    var s' := Next(rsa, priv, s, e).value;
    assert forall c, a :: Generated(s, c, a) <==> Generated(s', c, a);
    PutSeen(s.toServer, e.c, EncryptedMsg(s.clients[e.c].pc.ct));
    WireGrows(rsa, priv, s, s');
  }

  lemma TalkStays(rsa: Rsa, priv: nat, s: System, e: Event)
    requires Inv(rsa, priv, s) && Next(rsa, priv, s, e).Some? && e.ClientTalks?
    ensures Inv(rsa, priv, Next(rsa, priv, s, e).value)
  {
    hide KeyArray, Put, Seen, FromWire;
    var s' := Next(rsa, priv, s, e).value;
    assert forall c, a :: Generated(s, c, a) <==> Generated(s', c, a);
    PutSeen(s.toServer, e.c, e.msg);
    WireGrows(rsa, priv, s, s');
  }

  lemma KeyStays(rsa: Rsa, priv: nat, s: System, c: nat, msg: WireMsg, r: nat)
    requires RsaInverts(rsa) && Inv(rsa, priv, s) && Next(rsa, priv, s, ClientReceives(c, msg, r)).Some?
    ensures Inv(rsa, priv, Next(rsa, priv, s, ClientReceives(c, msg, r)).value)
  {
    hide KeyArray, FromWire;
    var s' := Next(rsa, priv, s, ClientReceives(c, msg, r)).value;
    WireGrows(rsa, priv, s, s');
    assert forall d, a :: Generated(s, d, a) <==> Generated(s', d, a);
    var a := ApiKey(s.clients[c].encKey, s.clients[c].hmacKey);
    assert msg == PublicKeyMsg(rsa.pubOf(priv));
    assert rsa.decrypt(priv, rsa.encrypt(rsa.pubOf(priv), a, r)) == Some(a);
  }

  lemma ServerStays(rsa: Rsa, priv: nat, s: System, e: Event)
    requires Inv(rsa, priv, s) && Next(rsa, priv, s, e).Some? && !OfClient(e)
    ensures Inv(rsa, priv, Next(rsa, priv, s, e).value)
  {
    hide KeyArray, FromWire;
    var s' := Next(rsa, priv, s, e).value;
    WireGrows(rsa, priv, s, s');
    assert forall c, a :: Generated(s, c, a) <==> Generated(s', c, a);
    if e.ServerSendsKey? {
      hide Put, Seen;
      PutSeen(s.toClient, s.server.c, PublicKeyMsg(rsa.pubOf(priv)));
    } else if e.ServerOpens? && s'.server.Adding? {
      OpenedFromWire(rsa, priv, s, s.server.c, s.server.msg.ct, ApiKey(s'.server.enc, s'.server.mac));
    }
  }

  lemma OpenedFromWire(rsa: Rsa, priv: nat, s: System, c: nat, ct: bytes, keys: ApiKey)
    requires Seen(s.toServer, c, EncryptedMsg(ct)) && Opens(rsa, priv, ct, keys)
    ensures FromWire(rsa, priv, s, c, keys)
  {
  }

  lemma Stays(rsa: Rsa, priv: nat, s: System, e: Event)
    requires RsaInverts(rsa) && Inv(rsa, priv, s) && Next(rsa, priv, s, e).Some?
    ensures Inv(rsa, priv, Next(rsa, priv, s, e).value)
  {
    hide RsaInverts, Inv, Next;
    if e.ClientReceives? {
      KeyStays(rsa, priv, s, e.c, e.msg, e.r);
    } else if e.Dial? {
      DialStays(rsa, priv, s, e);
    } else if e.ClientSends? {
      SendStays(rsa, priv, s, e);
    } else if e.ClientTalks? {
      TalkStays(rsa, priv, s, e);
    } else {
      ServerStays(rsa, priv, s, e);
    }
  }

  ghost predicate Run(rsa: Rsa, priv: nat, s: System, es: seq<Event>, s': System)
    decreases |es|
  {
    if es == [] then s' == s
    else Next(rsa, priv, s, es[0]).Some? && Run(rsa, priv, Next(rsa, priv, s, es[0]).value, es[1..], s')
  }

  lemma {:induction false} RunKeeps(rsa: Rsa, priv: nat, s: System, es: seq<Event>, s': System)
    requires RsaInverts(rsa) && Inv(rsa, priv, s) && Run(rsa, priv, s, es, s')
    ensures Inv(rsa, priv, s')
    decreases |es|
  {
    hide Inv, Next, RsaInverts;
    if es == [] {
    } else {
      Stays(rsa, priv, s, es[0]);
      RunKeeps(rsa, priv, Next(rsa, priv, s, es[0]).value, es[1..], s');
    }
  }

  lemma WireKeys(rsa: Rsa, priv: nat, s: System, c: nat, keys: ApiKey)
    requires Inv(rsa, priv, s) && FromWire(rsa, priv, s, c, keys)
    ensures c in s.clients && |keys.encKey| == KEY_SIZE && |keys.hmacKey| == KEY_SIZE
    ensures s.clients[c].secure ==> keys == ApiKey(s.clients[c].encKey, s.clients[c].hmacKey)
  {
    hide KeyArray;
    var ct: bytes :| Seen(s.toServer, c, EncryptedMsg(ct)) && Opens(rsa, priv, ct, keys);
    assert Generated(s, c, rsa.decrypt(priv, ct).value);
  }

  /** In every interleaving with any number of clients, secure or not, every wrapper the server adds
      carries the two 32-byte keys that an encrypted message on its own connection opens to; and if the
      client is a secure one they are exactly the keys that client generated. */
  lemma KeysAgree(rsa: Rsa, priv: nat, es: seq<Event>, s: System)
    requires RsaInverts(rsa) && Run(rsa, priv, START, es, s)
    ensures forall c | c in s.added ::
      && c in s.clients && |s.added[c].encKey| == KEY_SIZE && |s.added[c].hmacKey| == KEY_SIZE
      && FromWire(rsa, priv, s, c, s.added[c])
      && (s.clients[c].secure ==>
            s.added[c].encKey == s.clients[c].encKey && s.added[c].hmacKey == s.clients[c].hmacKey)
  {
    hide RsaInverts, Next, FromWire, Run;
    assert Inv(rsa, priv, START);
    RunKeeps(rsa, priv, START, es, s);
    forall c | c in s.added
      ensures c in s.clients && |s.added[c].encKey| == KEY_SIZE && |s.added[c].hmacKey| == KEY_SIZE
      ensures s.clients[c].secure ==> s.added[c] == ApiKey(s.clients[c].encKey, s.clients[c].hmacKey)
    {
      WireKeys(rsa, priv, s, c, s.added[c]);
    }
  }

  lemma {:induction false} RunAppends(rsa: Rsa, priv: nat, s: System, es: seq<Event>, s': System, e: Event, s'': System)
    requires Run(rsa, priv, s, es, s') && Next(rsa, priv, s', e) == Some(s'')
    ensures Run(rsa, priv, s, es + [e], s'')
    decreases |es|
  {
    hide Next;
    if es == [] {
      assert [e][1..] == [] && es + [e] == [e];
      assert Run(rsa, priv, s'', [], s'');
    } else {
      RunAppends(rsa, priv, Next(rsa, priv, s, es[0]).value, es[1..], s', e, s'');
      assert (es + [e])[1..] == es[1..] + [e];
    }
  }

  /** No connection is accepted twice. */
  lemma {:induction false} AcceptedOnce(rsa: Rsa, priv: nat, s: System, es: seq<Event>, s': System)
    requires Run(rsa, priv, s, es, s')
    ensures s.accepted <= s'.accepted
    ensures forall c | c in s.accepted :: Accept(c) !in es
    ensures forall c :: c in s'.accepted <==> c in s.accepted || Accept(c) in es
    ensures forall i, j | 0 <= i < j < |es| && es[i].Accept? :: es[j] != es[i]
    decreases |es|
  {
    if es == [] {
    } else {
      var s1 := Next(rsa, priv, s, es[0]).value;
      assert s1.accepted == s.accepted + if es[0].Accept? then {es[0].c} else {};
      assert es[0].Accept? ==> es[0].c !in s.accepted;
      hide Next;
      AcceptedOnce(rsa, priv, s1, es[1..], s');
      assert es == [es[0]] + es[1..];
      forall i, j | 0 <= i < j < |es| && es[i].Accept?
        ensures es[j] != es[i]
      {
        assert es[j] == es[1..][j - 1];
        if i > 0 {
          assert es[i] == es[1..][i - 1];
        }
      }
    }
  }

  /** The handshake is not blocked by anything that went before: whenever the server is accepting, a
      new secure client can go through it, and is then added with its own two keys. */
  lemma HandshakeCompletes(rsa: Rsa, priv: nat, before: seq<Event>, s: System, c: nat, encKey: bytes, hmacKey: bytes)
    returns (es: seq<Event>, s': System)
    requires RsaInverts(rsa) && Run(rsa, priv, START, before, s) && s.server.Accepting?
    requires c !in s.clients && |encKey| == KEY_SIZE && |hmacKey| == KEY_SIZE
    ensures Run(rsa, priv, s, es, s')
    ensures s'.server.Accepting? && s'.added == s.added[c := ApiKey(encKey, hmacKey)]
    ensures s'.accepted == s.accepted + {c} && c in s'.clients && s'.clients[c].pc.Connected?
  {
    hide Run;
    assert Inv(rsa, priv, START);
    RunKeeps(rsa, priv, START, before, s);
    assert c !in s.accepted;
    var own := ApiKey(encKey, hmacKey);
    var ct := rsa.encrypt(rsa.pubOf(priv), own, 0);
    var key := PublicKeyMsg(rsa.pubOf(priv));
    es, s' := Meets(rsa, priv, s, c, encKey, hmacKey);
    hide Put;
    PutSeen(s.toClient, c, key);
    var s4 := s'.(clients := s'.clients[c := Client(Sending(ct), encKey, hmacKey, true)]);
    RunAppends(rsa, priv, s, es, s', ClientReceives(c, key, 0), s4);
    es := es + [ClientReceives(c, key, 0)];
    var s5 := s4.(clients := s4.clients[c := Client(Connected, encKey, hmacKey, true)],
                  toServer := Put(s4.toServer, c, EncryptedMsg(ct)));
    RunAppends(rsa, priv, s, es, s4, ClientSends(c), s5);
    es := es + [ClientSends(c)];
    var tail;
    tail, s' := Finishes(rsa, priv, s, es, s5, c, ct, own);
    es := tail;
  }

  lemma Meets(rsa: Rsa, priv: nat, s: System, c: nat, encKey: bytes, hmacKey: bytes)
    returns (es: seq<Event>, s': System)
    requires s.server.Accepting? && c !in s.clients && c !in s.accepted
    requires |encKey| == KEY_SIZE && |hmacKey| == KEY_SIZE
    ensures Run(rsa, priv, s, es, s')
    ensures s' == s.(clients := s.clients[c := Client(AwaitingKey, encKey, hmacKey, true)],
                     server := AwaitingMsg(c), accepted := s.accepted + {c},
                     toClient := Put(s.toClient, c, PublicKeyMsg(rsa.pubOf(priv))))
  {
    var s1 := s.(clients := s.clients[c := Client(AwaitingKey, encKey, hmacKey, true)]);
    var s2 := s1.(server := SendingKey(c), accepted := s.accepted + {c});
    s' := s2.(server := AwaitingMsg(c), toClient := Put(s.toClient, c, PublicKeyMsg(rsa.pubOf(priv))));
    assert Run(rsa, priv, s, [], s);
    hide Run, Put;
    RunAppends(rsa, priv, s, [], s, Dial(c, encKey, hmacKey, true), s1);
    es := [] + [Dial(c, encKey, hmacKey, true)];
    RunAppends(rsa, priv, s, es, s1, Accept(c), s2);
    es := es + [Accept(c)];
    RunAppends(rsa, priv, s, es, s2, ServerSendsKey, s');
    es := es + [ServerSendsKey];
  }

  lemma Finishes(rsa: Rsa, priv: nat, s: System, es: seq<Event>, s5: System, c: nat, ct: bytes, keys: ApiKey)
    returns (es': seq<Event>, s': System)
    requires Run(rsa, priv, s, es, s5) && s5.server == AwaitingMsg(c) && Seen(s5.toServer, c, EncryptedMsg(ct))
    requires rsa.decrypt(priv, ct) == Some(keys) && |keys.encKey| == KEY_SIZE && |keys.hmacKey| == KEY_SIZE
    ensures Run(rsa, priv, s, es', s') && s' == s5.(server := Accepting, added := s5.added[c := keys])
  {
    hide Run, Put, KeyArray;
    var s6 := s5.(server := Opening(c, EncryptedMsg(ct)));
    RunAppends(rsa, priv, s, es, s5, ServerReceives(EncryptedMsg(ct)), s6);
    es' := es + [ServerReceives(EncryptedMsg(ct))];
    var s7 := s5.(server := Adding(c, keys.encKey, keys.hmacKey));
    RunAppends(rsa, priv, s, es', s6, ServerOpens, s7);
    es' := es' + [ServerOpens];
    s' := s5.(server := Accepting, added := s5.added[c := keys]);
    RunAppends(rsa, priv, s, es', s7, ServerAdds, s');
    es' := es' + [ServerAdds];
  }

  /** Whatever a client put on its connection, the server comes back to accepting after opening it; it
      adds a wrapper for that client if and only if it was an encrypted message that opens. */
  lemma OpeningEnds(rsa: Rsa, priv: nat, s: System) returns (es: seq<Event>, s': System)
    requires s.server.Opening?
    ensures Run(rsa, priv, s, es, s') && s'.server.Accepting?
    ensures var c, msg := s.server.c, s.server.msg;
      if msg.EncryptedMsg? && rsa.decrypt(priv, msg.ct).Some? then
        exists keys :: Opens(rsa, priv, msg.ct, keys) && s'.added == s.added[c := keys]
      else s'.added == s.added
  {
    hide KeyArray;
    assert Run(rsa, priv, s, [], s);
    var s1 := Next(rsa, priv, s, ServerOpens).value;
    RunAppends(rsa, priv, s, [], s, ServerOpens, s1);
    es, s' := [] + [ServerOpens], s1;
    if s1.server.Adding? {
      s' := Next(rsa, priv, s1, ServerAdds).value;
      RunAppends(rsa, priv, s, es, s1, ServerAdds, s');
      es := es + [ServerAdds];
      var keys := ApiKey(s1.server.enc, s1.server.mac);
      assert Opens(rsa, priv, s.server.msg.ct, keys) && s'.added == s.added[s.server.c := keys];
    }
  }
}
