/** Service discovery: the definition a server publishes and the strict matching a client does. */
module Discovery {
  import opened Bytes
  import opened Frames
  import opened StreamDecoder
  import opened Registry

  /** Part of the published definition. */
  datatype ConnectionInfo = ConnectionInfo(websocket: bool, port: int, hostName: string, uri: string)
  datatype MDefinition = MDefinition(info: ConnectionInfo, supportedMessageTypes: seq<string>)

  class Service {
    var port: int
    var hostName: string
    var uri: string

    constructor (port: int, hostName: string, uri: string)
      ensures this.port == port && this.hostName == hostName && this.uri == uri
    {
      this.port, this.hostName, this.uri := port, hostName, uri;
    }
  }

  /** Everything but the nil message and the two handshake types. */
  predicate IsUserType(name: string) {
    name != PUBLIC_KEY.name && name != ENCRYPTED_MESSAGE.name && name != ""
  }

  function UserTypes(b: Maps): set<string> {
    set i | i in b.idents && IsUserType(NameOf(b.idents[i])) :: NameOf(b.idents[i])
  }

  function SetOf(names: seq<string>): set<string> {
    set n | n in names
  }

  predicate NoDuplicates(names: seq<string>) {
    forall i, j | 0 <= i < j < |names| :: names[i] != names[j]
  }

  /** The registered user types, in whatever order the map is walked: each exactly once. */
  method GetIdentityMessageNames(bb: BaseBuilder) returns (names: seq<string>)
    requires Valid(bb.hash, bb.View())
    ensures NoDuplicates(names) && SetOf(names) == UserTypes(bb.View())
  {
    names := [];
    var todo := bb.messageIdentMap.Keys;
    ghost var done: set<nat> := {};
    while todo != {}
      invariant todo + done == bb.messageIdentMap.Keys && todo !! done
      invariant NoDuplicates(names)
      invariant forall n :: n in names <==> exists i :: i in done && IsUserType(n) && NameOf(bb.messageIdentMap[i]) == n
      decreases todo
    {
      var i: nat :| i in todo;
      var name := NameOf(bb.messageIdentMap[i]);
      assert forall j | j in done :: NameOf(bb.messageIdentMap[j]) != name by {
        assert forall j | j in done :: bb.hash(NameOf(bb.messageIdentMap[j])) == j;
        assert bb.hash(name) == i;
      }
      if IsUserType(name) {
        names := names + [name];
      }
      todo, done := todo - {i}, done + {i};
    }
  }

  /** What the matching compares: the number of names, and that each published one is known. */
  predicate Matches(known: set<string>, published: seq<string>) {
    |known| == |published| && forall i | 0 <= i < |published| :: published[i] in known
  }

  method AllProtocolsMatch(sec: BaseBuilder, definition: MDefinition) returns (ok: bool)
    requires Valid(sec.hash, sec.View())
    ensures ok <==> Matches(UserTypes(sec.View()), definition.supportedMessageTypes)
  {
    var builderNames := GetIdentityMessageNames(sec);
    var mdefNames := definition.supportedMessageTypes;
    DistinctSize(builderNames);
    if |builderNames| != |mdefNames| {
      return false;
    }
    var checkerMap: map<string, bool> := map[];
    for i := 0 to |builderNames|
      invariant checkerMap.Keys == SetOf(builderNames[..i])
    {
      checkerMap := checkerMap[builderNames[i] := true];
      assert builderNames[..i + 1] == builderNames[..i] + [builderNames[i]];
    }
    assert builderNames == builderNames[..|builderNames|];
    for i := 0 to |mdefNames|
      invariant forall j | 0 <= j < i :: mdefNames[j] in UserTypes(sec.View())
    {
      if mdefNames[i] !in checkerMap {
        return false;
      }
    }
    ok := true;
  }

  lemma {:induction false} DistinctSize(names: seq<string>)
    ensures |SetOf(names)| <= |names|
    ensures |SetOf(names)| == |names| <==> NoDuplicates(names)
  {
    if names == [] {
      assert SetOf(names) == {};
    } else {
      var last := |names| - 1;
      var front := names[..last];
      assert names == front + [names[last]];
      DistinctSize(front);
      assert SetOf(names) == SetOf(front) + {names[last]};
      if names[last] in front {
        assert SetOf(names) == SetOf(front);
        var i :| 0 <= i < |front| && front[i] == names[last];
        assert names[i] == names[last];
      } else {
        assert forall i | 0 <= i < last :: names[i] == front[i];
        assert names[last] !in SetOf(front);
      }
    }
  }

  lemma SubsetOfSameSize(a: set<string>, b: set<string>)
    requires a <= b && |a| == |b|
    ensures a == b
  {
    assert |b - a| == |b| - |a|;
  }

  /** For published names without duplicates, strict matching is equality of the two sets; with
      duplicates a match is always wrong. */
  lemma MatchingIsSetEquality(known: set<string>, published: seq<string>)
    ensures NoDuplicates(published) ==> (Matches(known, published) <==> SetOf(published) == known)
    ensures !NoDuplicates(published) ==> !(Matches(known, published) && SetOf(published) == known)
  {
    DistinctSize(published);
    if NoDuplicates(published) && Matches(known, published) {
      SubsetOfSameSize(SetOf(published), known);
    }
    if SetOf(published) == known {
      assert forall i | 0 <= i < |published| :: published[i] in SetOf(published);
    }
  }

  /** A published list that repeats a name can match a builder that knows more types. */
  lemma RepeatedNameMatches(s: string, t: string)
    requires s != t
    ensures Matches({s, t}, [s, s]) && SetOf([s, s]) != {s, t}
  {
  }

  /** The definition a server publishes for itself. */
  method MakeDefinition(nsb: BaseBuilder, ns: Service, ws: bool) returns (d: MDefinition)
    requires Valid(nsb.hash, nsb.View())
    ensures d.info == ConnectionInfo(ws, ns.port, ns.hostName, ns.uri)
    ensures NoDuplicates(d.supportedMessageTypes) && SetOf(d.supportedMessageTypes) == UserTypes(nsb.View())
  {
    var protobufTypes := GetIdentityMessageNames(nsb);
    d := MDefinition(ConnectionInfo(ws, ns.port, ns.hostName, ns.uri), protobufTypes);
  }

  method PopulateServiceFromMDef(service: Service, definition: MDefinition)
    modifies service
    ensures service.port == definition.info.port && service.hostName == definition.info.hostName
    ensures service.uri == if definition.info.websocket then definition.info.uri else old(service.uri)
  {
    service.port := definition.info.port;
    service.hostName := definition.info.hostName;
    if definition.info.websocket {
      service.uri := definition.info.uri;
    }
  }

  method ProcessMdef(sec: BaseBuilder, service: Service, mdef: MDefinition, strict: bool) returns (ok: bool)
    requires Valid(sec.hash, sec.View())
    modifies service
    ensures ok <==> !strict || Matches(UserTypes(sec.View()), mdef.supportedMessageTypes)
    ensures ok ==> service.port == mdef.info.port && service.hostName == mdef.info.hostName
    ensures service.uri == if ok && mdef.info.websocket then mdef.info.uri else old(service.uri)
    ensures !ok ==> unchanged(service)
  {
    if strict {
      var matching := AllProtocolsMatch(sec, mdef);
      if !matching {
        return false;
      }
    }
    PopulateServiceFromMDef(service, mdef);
    ok := true;
  }

  /** A strict client accepts a server's own definition exactly when both know the same user
      types, and then points at the server. */
  method DiscoverStrictly(server: BaseBuilder, serverNs: Service, client: BaseBuilder, clientNs: Service, ws: bool)
    returns (ok: bool)
    requires Valid(server.hash, server.View()) && Valid(client.hash, client.View())
    modifies clientNs
    ensures ok <==> UserTypes(server.View()) == UserTypes(client.View())
    ensures ok ==> clientNs.port == serverNs.port && clientNs.hostName == serverNs.hostName
    ensures ok && ws ==> clientNs.uri == serverNs.uri
  {
    var d := MakeDefinition(server, serverNs, ws);
    ok := ProcessMdef(client, clientNs, d, true);
    MatchingIsSetEquality(UserTypes(client.View()), d.supportedMessageTypes);
  }

  /** After a strict match, the id one side writes for a user type is that type to the other. */
  lemma MatchedTypesResolve(hash: Hash, writer: Maps, reader: Maps, t: string)
    requires Valid(hash, writer) && Valid(hash, reader) && CollisionFree(hash, writer.inverse.Keys)
    requires UserTypes(writer) == UserTypes(reader)
    requires t in writer.inverse && IsUserType(t)
    ensures Resolves(writer.inverse, reader.idents, t)
  {
    IdLeadsToType(hash, writer, t);
    assert t in UserTypes(writer);
    var i :| i in reader.idents && IsUserType(NameOf(reader.idents[i])) && NameOf(reader.idents[i]) == t;
    assert i == hash(t);
  }
}
