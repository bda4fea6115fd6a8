/** The builder's maps of message identities and routes, changed by one option after another. */
module Registry {
  import opened Bytes
  import opened Frames

  /** The name of the nil message, under which the default route is kept. */
  const DEFAULT_ROUTE := ""
  const PUBLIC_KEY := Message("goprocrypt.PublicKey", [])
  const ENCRYPTED_MESSAGE := Message("goprocrypt.EncryptedMessage", [])

  type Hash = string -> uint32

  /** A registered prototype; `None` is nil. */
  type Ident = Option<Message>

  function NameOf(ident: Ident): string {
    match ident
    case None => DEFAULT_ROUTE
    case Some(m) => m.name
  }

  /** Route handlers are known by a number; `None` is the nil route. */
  datatype BuildOption =
    | AddIdentities(idents: seq<Ident>)
    | Route(ident: Ident, route: Option<nat>)
    | Secure
    | Insecure

  datatype Maps = Maps(idents: IdentMap, inverse: map<string, nat>, routes: map<string, nat>, secure: bool)

  const EMPTY := Maps(map[], map[], map[], false)

  function AddSingleIdentity(hash: Hash, b: Maps, ident: Ident): Maps {
    var t := NameOf(ident);
    b.(idents := b.idents[hash(t) := ident], inverse := b.inverse[t := hash(t)])
  }

  function AddAll(hash: Hash, b: Maps, idents: seq<Ident>): Maps
    decreases |idents|
  {
    if idents == [] then b else AddAll(hash, AddSingleIdentity(hash, b, idents[0]), idents[1..])
  }

  /** One option.  A nil route panics out of the build, after its identity was added. */
  function Apply(hash: Hash, b: Maps, o: BuildOption): (Maps, bool) {
    match o
    case AddIdentities(idents) => (AddAll(hash, b, idents), true)
    case Insecure => (b.(secure := false), true)
    case Secure =>
      var b' := AddAll(hash, b.(secure := true), [Some(PUBLIC_KEY), Some(ENCRYPTED_MESSAGE)]);
      (b'.(routes := b'.routes - {DEFAULT_ROUTE}), true)
    case Route(ident, route) =>
      if b.secure && ident.None? then (b, true)
      else
        var b' := AddSingleIdentity(hash, b, ident);
        if route.None? then (b', false)
        else (b'.(routes := b'.routes[NameOf(ident) := route.value]), true)
  }

  function ApplyAll(hash: Hash, b: Maps, opts: seq<BuildOption>): (Maps, bool)
    decreases |opts|
  {
    if opts == [] then (b, true)
    else
      var (b', ok) := Apply(hash, b, opts[0]);
      if ok then ApplyAll(hash, b', opts[1..]) else (b', false)
  }

  /** Every real message type has a name. */
  predicate Named(ident: Ident) {
    ident.Some? ==> ident.value.name != ""
  }

  predicate WellNamed(o: BuildOption) {
    match o
    case AddIdentities(idents) => forall i | 0 <= i < |idents| :: Named(idents[i])
    case Route(ident, _) => Named(ident)
    case _ => true
  }

  ghost predicate Valid(hash: Hash, b: Maps) {
    && (forall t | t in b.inverse :: b.inverse[t] == hash(t) && hash(t) in b.idents)
    && (forall i | i in b.idents ::
          hash(NameOf(b.idents[i])) == i && NameOf(b.idents[i]) in b.inverse && Named(b.idents[i]))
    && b.routes.Keys <= b.inverse.Keys
    && (b.secure ==> DEFAULT_ROUTE !in b.routes && PUBLIC_KEY.name in b.inverse && ENCRYPTED_MESSAGE.name in b.inverse)
  }

  lemma AddSingleKeepsValid(hash: Hash, b: Maps, ident: Ident)
    requires Valid(hash, b) && Named(ident)
    ensures Valid(hash, AddSingleIdentity(hash, b, ident))
  {
  }

  lemma {:induction false} AddAllKeepsValid(hash: Hash, b: Maps, idents: seq<Ident>)
    requires Valid(hash, b) && forall i | 0 <= i < |idents| :: Named(idents[i])
    ensures Valid(hash, AddAll(hash, b, idents))
    ensures AddAll(hash, b, idents).routes == b.routes && AddAll(hash, b, idents).secure == b.secure
    ensures b.inverse.Keys <= AddAll(hash, b, idents).inverse.Keys
    decreases |idents|
  {
    hide Valid;
    if idents == [] {
    } else {
      AddSingleKeepsValid(hash, b, idents[0]);
      AddAllKeepsValid(hash, AddSingleIdentity(hash, b, idents[0]), idents[1..]);
    }
  }

  lemma ApplyKeepsValid(hash: Hash, b: Maps, o: BuildOption)
    requires Valid(hash, b) && WellNamed(o)
    ensures Valid(hash, Apply(hash, b, o).0)
  {
    match o
    case AddIdentities(idents) => AddAllKeepsValid(hash, b, idents);
    case Insecure =>
    case Route(ident, _) => AddSingleKeepsValid(hash, b, ident);
    case Secure =>
      var idents := [Some(PUBLIC_KEY), Some(ENCRYPTED_MESSAGE)];
      var open := b.(routes := b.routes - {DEFAULT_ROUTE}, secure := false);
      AddAllKeepsValid(hash, open, idents);
      HandshakeTypesAdded(hash, b.(secure := true), open);
  }

  lemma HandshakeTypesAdded(hash: Hash, b: Maps, open: Maps)
    requires b.idents == open.idents && b.inverse == open.inverse
    ensures var idents := [Some(PUBLIC_KEY), Some(ENCRYPTED_MESSAGE)];
      var r, s := AddAll(hash, b, idents), AddAll(hash, open, idents);
      && r.idents == s.idents && r.inverse == s.inverse && r.routes == b.routes && r.secure == b.secure
      && PUBLIC_KEY.name in r.inverse && ENCRYPTED_MESSAGE.name in r.inverse
  {
    AddPair(hash, b, Some(PUBLIC_KEY), Some(ENCRYPTED_MESSAGE));
    AddPair(hash, open, Some(PUBLIC_KEY), Some(ENCRYPTED_MESSAGE));
  }

  lemma AddPair(hash: Hash, b: Maps, x: Ident, y: Ident)
    ensures AddAll(hash, b, [x, y]) == AddSingleIdentity(hash, AddSingleIdentity(hash, b, x), y)
  {
    assert [x, y][1..] == [y];
    assert [y][1..] == [];
    assert AddAll(hash, AddSingleIdentity(hash, b, x), [y])
        == AddSingleIdentity(hash, AddSingleIdentity(hash, b, x), y);
  }

  /** Every sequence of options, finished or broken off by a nil route, leaves consistent maps:
      ids are the hashes of names both ways, and a secure builder has no default route and knows
      both handshake types. */
  lemma {:induction false} BuildIsValid(hash: Hash, b: Maps, opts: seq<BuildOption>)
    requires Valid(hash, b) && forall i | 0 <= i < |opts| :: WellNamed(opts[i])
    ensures Valid(hash, ApplyAll(hash, b, opts).0)
    decreases |opts|
  {
    hide Valid;
    if opts == [] {
    } else {
      ApplyKeepsValid(hash, b, opts[0]);
      if Apply(hash, b, opts[0]).1 {
        BuildIsValid(hash, Apply(hash, b, opts[0]).0, opts[1..]);
      }
    }
  }

  lemma NewBuilderIsValid(hash: Hash)
    ensures Valid(hash, EMPTY)
  {
  }

  /** The last option that speaks of security decides. */
  function SecureBy(before: bool, opts: seq<BuildOption>): bool
    decreases |opts|
  {
    if opts == [] then before
    else
      var o := opts[|opts| - 1];
      if o.Secure? then true else if o.Insecure? then false else SecureBy(before, opts[..|opts| - 1])
  }

  lemma {:induction false} SecureByHead(before: bool, opts: seq<BuildOption>)
    requires opts != []
    ensures SecureBy(before, opts)
      == SecureBy(if opts[0].Secure? then true else if opts[0].Insecure? then false else before, opts[1..])
    decreases |opts|
  {
    var front := opts[..|opts| - 1];
    if |opts| == 1 {
    } else {
      assert opts[1..][..|opts| - 2] == front[1..];
      SecureByHead(before, front);
    }
  }

  lemma ApplySecures(hash: Hash, b: Maps, o: BuildOption)
    ensures Apply(hash, b, o).0.secure == if o.Secure? then true else if o.Insecure? then false else b.secure
  {
    match o
    case AddIdentities(idents) => AddAllKeepsSecure(hash, b, idents);
    case Secure => AddAllKeepsSecure(hash, b.(secure := true), [Some(PUBLIC_KEY), Some(ENCRYPTED_MESSAGE)]);
    case _ =>
  }

  lemma {:induction false} AddAllKeepsSecure(hash: Hash, b: Maps, idents: seq<Ident>)
    ensures AddAll(hash, b, idents).secure == b.secure && AddAll(hash, b, idents).routes == b.routes
    decreases |idents|
  {
    if idents == [] {
    } else {
      AddAllKeepsSecure(hash, AddSingleIdentity(hash, b, idents[0]), idents[1..]);
    }
  }

  /** After every finished list of options a builder is secure if and only if the last of its
      `Secure` and `Insecure` options is `Secure`, or there is none and it was secure before. */
  lemma {:induction false} SecureIffAskedLast(hash: Hash, b: Maps, opts: seq<BuildOption>)
    requires ApplyAll(hash, b, opts).1
    ensures ApplyAll(hash, b, opts).0.secure == SecureBy(b.secure, opts)
    decreases |opts|
  {
    hide Apply;
    if opts == [] {
    } else {
      ApplySecures(hash, b, opts[0]);
      SecureByHead(b.secure, opts);
      SecureIffAskedLast(hash, Apply(hash, b, opts[0]).0, opts[1..]);
    }
  }

  /** The last option for the route of this name, and for the default route the last that was not
      refused or undone by security. */
  function RouteBy(secure: bool, route: Option<nat>, opts: seq<BuildOption>, t: string): Option<nat>
    decreases |opts|
  {
    if opts == [] then route
    else
      var o, front := opts[|opts| - 1], opts[..|opts| - 1];
      if o.Route? && NameOf(o.ident) == t && !(SecureBy(secure, front) && o.ident.None?) then o.route
      else if o.Secure? && t == DEFAULT_ROUTE then None
      else RouteBy(secure, route, front, t)
  }

  function Lookup(routes: map<string, nat>, t: string): Option<nat> {
    if t in routes then Some(routes[t]) else None
  }

  lemma {:induction false} ApplyAllAppend(hash: Hash, b: Maps, opts: seq<BuildOption>, o: BuildOption)
    ensures ApplyAll(hash, b, opts + [o])
      == var (b', ok) := ApplyAll(hash, b, opts); if ok then Apply(hash, b', o) else (b', false)
    decreases |opts|
  {
    hide Apply;
    if opts == [] {
      assert [o][1..] == [] && opts + [o] == [o];
    } else {
      assert (opts + [o])[1..] == opts[1..] + [o];
      var (b', ok) := Apply(hash, b, opts[0]);
      if ok {
        ApplyAllAppend(hash, b', opts[1..], o);
      }
    }
  }

  lemma ApplyRoutes(hash: Hash, b: Maps, o: BuildOption, t: string)
    requires Apply(hash, b, o).1
    ensures Lookup(Apply(hash, b, o).0.routes, t)
      == if o.Route? && NameOf(o.ident) == t && !(b.secure && o.ident.None?) then o.route
         else if o.Secure? && t == DEFAULT_ROUTE then None
         else Lookup(b.routes, t)
  {
    match o
    case AddIdentities(idents) => AddAllKeepsSecure(hash, b, idents);
    case Secure => AddAllKeepsSecure(hash, b.(secure := true), [Some(PUBLIC_KEY), Some(ENCRYPTED_MESSAGE)]);
    case _ =>
  }

  /** After every finished list of options, of a name's routes the last one given is in force. */
  lemma {:induction false} LastRouteIsInForce(hash: Hash, b: Maps, opts: seq<BuildOption>, t: string)
    requires ApplyAll(hash, b, opts).1
    ensures Lookup(ApplyAll(hash, b, opts).0.routes, t) == RouteBy(b.secure, Lookup(b.routes, t), opts, t)
    decreases |opts|
  {
    hide Apply, SecureBy;
    if opts == [] {
    } else {
      var front, last := opts[..|opts| - 1], opts[|opts| - 1];
      assert opts == front + [last];
      ApplyAllAppend(hash, b, front, last);
      LastRouteIsInForce(hash, b, front, t);
      SecureIffAskedLast(hash, b, front);
      ApplyRoutes(hash, ApplyAll(hash, b, front).0, last, t);
    }
  }

  /** A build breaks off exactly at the first nil route that security does not refuse first. */
  lemma {:induction false} BreaksOffIff(hash: Hash, b: Maps, opts: seq<BuildOption>)
    ensures ApplyAll(hash, b, opts).1 <==>
      forall i | 0 <= i < |opts| && opts[i].Route? && opts[i].route.None? ::
        opts[i].ident.None? && SecureBy(b.secure, opts[..i])
    decreases |opts|
  {
    hide Apply, SecureBy;
    if opts == [] {
    } else {
      var front, last := opts[..|opts| - 1], opts[|opts| - 1];
      assert opts == front + [last];
      ApplyAllAppend(hash, b, front, last);
      BreaksOffIff(hash, b, front);
      assert forall i | 0 <= i < |front| :: opts[i] == front[i] && opts[..i] == front[..i];
      if ApplyAll(hash, b, front).1 {
        SecureIffAskedLast(hash, b, front);
        ApplyEnds(hash, ApplyAll(hash, b, front).0, last);
        assert opts[..|front|] == front;
      }
    }
  }

  lemma ApplyEnds(hash: Hash, b: Maps, o: BuildOption)
    ensures Apply(hash, b, o).1 <==> (o.Route? && o.route.None? ==> o.ident.None? && b.secure)
  {
  }

  /** No two of these names share an id. */
  ghost predicate CollisionFree(hash: Hash, names: set<string>) {
    forall s, t | s in names && t in names && hash(s) == hash(t) :: s == t
  }

  /** Without collisions, the id a builder holds for a type leads to a prototype of that type. */
  lemma IdLeadsToType(hash: Hash, b: Maps, t: string)
    requires Valid(hash, b) && CollisionFree(hash, b.inverse.Keys) && t in b.inverse
    ensures b.inverse[t] in b.idents && NameOf(b.idents[b.inverse[t]]) == t
  {
  }

  /** The identity map with prototypes reduced to their types. */
  function Types(idents: IdentMap): map<nat, string> {
    map i | i in idents :: NameOf(idents[i])
  }

  function NamesOf(idents: seq<Ident>): set<string> {
    set i | 0 <= i < |idents| :: NameOf(idents[i])
  }

  ghost function ById(hash: Hash, names: set<string>): (types: map<nat, string>)
    requires CollisionFree(hash, names)
    ensures forall t | t in names :: hash(t) in types && types[hash(t)] == t
    ensures forall i | i in types :: types[i] in names && hash(types[i]) == i
  {
    map t | t in names :: hash(t) := t
  }

  /** The type-to-id map after registering a list. */
  lemma {:induction false} RegisteredNames(hash: Hash, b: Maps, idents: seq<Ident>)
    ensures AddAll(hash, b, idents).inverse == b.inverse + map t | t in NamesOf(idents) :: hash(t)
    decreases |idents|
  {
    hide NamesOf;
    NamesSplit(idents);
    if idents == [] {
    } else {
      var b' := AddSingleIdentity(hash, b, idents[0]);
      RegisteredNames(hash, b', idents[1..]);
      assert b'.inverse == b.inverse[NameOf(idents[0]) := hash(NameOf(idents[0]))];
    }
  }

  /** The last of these prototypes whose name has this hash. */
  function LastWith(hash: Hash, idents: seq<Ident>, i: nat): Option<Ident>
    decreases |idents|
  {
    if idents == [] then None
    else
      var last := idents[|idents| - 1];
      if hash(NameOf(last)) == i then Some(last) else LastWith(hash, idents[..|idents| - 1], i)
  }

  lemma {:induction false} LastWithHead(hash: Hash, idents: seq<Ident>, i: nat)
    requires idents != []
    ensures LastWith(hash, idents, i)
      == if LastWith(hash, idents[1..], i).Some? then LastWith(hash, idents[1..], i)
         else if hash(NameOf(idents[0])) == i then Some(idents[0]) else None
    decreases |idents|
  {
    var front := idents[..|idents| - 1];
    if |idents| == 1 {
    } else {
      assert idents[1..][..|idents| - 2] == front[1..];
      LastWithHead(hash, front, i);
    }
  }

  /** With or without collisions, of the prototypes registered under an id the last one stays. */
  lemma {:induction false} LastRegistrationStays(hash: Hash, b: Maps, idents: seq<Ident>, i: nat)
    ensures var b', last := AddAll(hash, b, idents), LastWith(hash, idents, i);
      if last.Some? then i in b'.idents && b'.idents[i] == last.value
      else (i in b'.idents <==> i in b.idents) && (i in b.idents ==> b'.idents[i] == b.idents[i])
    decreases |idents|
  {
    if idents == [] {
    } else {
      LastWithHead(hash, idents, i);
      hide LastWith;
      LastRegistrationStays(hash, AddSingleIdentity(hash, b, idents[0]), idents[1..], i);
    }
  }

  lemma AddSingleTypes(hash: Hash, b: Maps, ident: Ident)
    ensures Types(AddSingleIdentity(hash, b, ident).idents) == Types(b.idents)[hash(NameOf(ident)) := NameOf(ident)]
  {
  }

  /** The id-to-type map after registering a list without collisions: only the set of names counts. */
  lemma {:induction false} RegisteredTypes(hash: Hash, b: Maps, idents: seq<Ident>)
    requires CollisionFree(hash, NamesOf(idents))
    ensures Types(AddAll(hash, b, idents).idents) == Types(b.idents) + ById(hash, NamesOf(idents))
    decreases |idents|
  {
    hide NamesOf, ById, Types, AddSingleIdentity, NameOf;
    NamesSplit(idents);
    if idents == [] {
      NoNames(hash, Types(b.idents));
    } else {
      var b' := AddSingleIdentity(hash, b, idents[0]);
      RegisteredTypes(hash, b', idents[1..]);
      AddSingleTypes(hash, b, idents[0]);
      AddName(hash, Types(b.idents), NameOf(idents[0]), NamesOf(idents[1..]));
    }
  }

  lemma NoNames(hash: Hash, types: map<nat, string>)
    ensures types + ById(hash, {}) == types
  {
  }

  lemma AddName(hash: Hash, types: map<nat, string>, t: string, rest: set<string>)
    requires CollisionFree(hash, {t} + rest)
    ensures types[hash(t) := t] + ById(hash, rest) == types + ById(hash, {t} + rest)
  {
    hide ById;
    var l, r := types[hash(t) := t] + ById(hash, rest), types + ById(hash, {t} + rest);
    forall i
      ensures i in l <==> i in r
      ensures i in l ==> l[i] == r[i]
    {
      if i in ById(hash, {t} + rest) {
        var s := ById(hash, {t} + rest)[i];
        assert s in {t} + rest;
      }
    }
  }

  lemma NamesSplit(idents: seq<Ident>)
    ensures NamesOf(idents) == if idents == [] then {} else {NameOf(idents[0])} + NamesOf(idents[1..])
  {
  }

  /** Registrations of the same types, in any order and with any repetitions, give the same maps. */
  lemma RegistrationOrderIsIrrelevant(hash: Hash, b: Maps, xs: seq<Ident>, ys: seq<Ident>)
    requires NamesOf(xs) == NamesOf(ys) && CollisionFree(hash, NamesOf(xs))
    ensures AddAll(hash, b, xs).inverse == AddAll(hash, b, ys).inverse
    ensures Types(AddAll(hash, b, xs).idents) == Types(AddAll(hash, b, ys).idents)
  {
    hide NamesOf, ById, Types;
    RegisteredNames(hash, b, xs);
    RegisteredNames(hash, b, ys);
    RegisteredTypes(hash, b, xs);
    RegisteredTypes(hash, b, ys);
  }

  /** A permutation registers the same names. */
  lemma PermutationKeepsNames(xs: seq<Ident>, ys: seq<Ident>)
    requires multiset(xs) == multiset(ys)
    ensures NamesOf(xs) == NamesOf(ys)
  {
    SubPermutation(xs, ys);
    SubPermutation(ys, xs);
  }

  lemma SubPermutation(xs: seq<Ident>, ys: seq<Ident>)
    requires multiset(xs) == multiset(ys)
    ensures NamesOf(xs) <= NamesOf(ys)
  {
    forall t | t in NamesOf(xs)
      ensures t in NamesOf(ys)
    {
      var i :| 0 <= i < |xs| && NameOf(xs[i]) == t;
      assert xs[i] in multiset(xs);
      assert xs[i] in multiset(ys);
      assert xs[i] in ys;
      var j :| 0 <= j < |ys| && ys[j] == xs[i];
    }
  }

  /** The builder object whose maps the options change. */
  class BaseBuilder {
    const hash: Hash
    var messageIdentMap: IdentMap
    var inverseIdentMap: map<string, nat>
    var routes: map<string, nat>
    var secure: bool

    function View(): Maps
      reads this
    {
      Maps(messageIdentMap, inverseIdentMap, routes, secure)
    }

    constructor (hash: Hash)
      ensures this.hash == hash && View() == EMPTY
    {
      this.hash := hash;
      messageIdentMap, inverseIdentMap, routes, secure := map[], map[], map[], false;
    }

    method RegisterIdentity(ident: Ident)
      modifies this
      ensures View() == AddSingleIdentity(hash, old(View()), ident)
    {
      var t := NameOf(ident);
      var i := hash(t);
      messageIdentMap := messageIdentMap[i := ident];
      inverseIdentMap := inverseIdentMap[t := i];
    }

    method AddMessageIdentities(idents: seq<Ident>)
      modifies this
      ensures View() == AddAll(hash, old(View()), idents)
    {
      for i := 0 to |idents|
        invariant AddAll(hash, View(), idents[i..]) == AddAll(hash, old(View()), idents)
      {
        RegisterIdentity(idents[i]);
        assert idents[i..][1..] == idents[i + 1..];
      }
    }

    method MakeSecure()
      modifies this
      ensures (View(), true) == Apply(hash, old(View()), Secure)
      ensures secure && DEFAULT_ROUTE !in routes
      ensures PUBLIC_KEY.name in inverseIdentMap && ENCRYPTED_MESSAGE.name in inverseIdentMap
    {
      secure := true;
      AddMessageIdentities([Some(PUBLIC_KEY), Some(ENCRYPTED_MESSAGE)]);
      assert DEFAULT_ROUTE !in routes ==> routes - {DEFAULT_ROUTE} == routes;
      AddPair(hash, old(View()).(secure := true), Some(PUBLIC_KEY), Some(ENCRYPTED_MESSAGE));
      if DEFAULT_ROUTE in routes {
        routes := routes - {DEFAULT_ROUTE};
      }
    }

    method AddRoute(ident: Ident, route: Option<nat>) returns (ok: bool)
      modifies this
      ensures (View(), ok) == Apply(hash, old(View()), Route(ident, route))
    {
      if secure && ident.None? {
        return true;
      }
      RegisterIdentity(ident);
      if route.None? {
        return false;
      }
      routes := routes[NameOf(ident) := route.value];
      ok := true;
    }

    /** Applies the options in turn; false when a nil route panics. */
    method Build(opts: seq<BuildOption>) returns (ok: bool)
      modifies this
      ensures (View(), ok) == ApplyAll(hash, old(View()), opts)
    {
      for i := 0 to |opts|
        invariant ApplyAll(hash, View(), opts[i..]) == ApplyAll(hash, old(View()), opts)
      {
        assert opts[i..][1..] == opts[i + 1..];
        match opts[i]
        case AddIdentities(idents) => AddMessageIdentities(idents);
        case Insecure => secure := false;
        case Secure => MakeSecure();
        case Route(ident, route) =>
          ok := AddRoute(ident, route);
          if !ok {
            return;
          }
      }
      ok := true;
    }
  }
}
