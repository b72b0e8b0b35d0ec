/**
 `InMemoryRegistry`: a table from the string key `name:environment` to the
 entry registered under it. Each `&mut self` operation is a function that
 returns the table after the call together with what the call returned;
 `&self` operations return only their answer.

 The key is a plain concatenation, so it is not injective: a name or an
 environment that contains `:` can make two different pairs share a key,
 and deregistering a name across environments removes every key that
 starts with `name:`, which includes keys of other names that begin with
 `name:`. The model keeps both behaviours; the lemmas at the end exhibit
 them, and show that neither arises when names contain no `:`
 (`KeyInjective` and `ResolveExact` for keys, `DeregisterAllExact` for
 deregistration).
 */
module InMemory {
  import opened Wrappers
  import opened Strings
  import opened Registry

  datatype InMemoryRegistry = InMemoryRegistry(services: map<string, ServiceEntry>)

  /** The registry after a mutating call, and the call's result. */
  datatype Step = Step(registry: InMemoryRegistry, result: RegistryResult)

  /** `InMemoryRegistry::generate_key`: the name, a `:`, the environment. */
  function GenerateKey(name: string, environment: string): (key: string)
    ensures |key| == |name| + 1 + |environment|
    ensures key[..|name|] == name && key[|name|] == ':' && key[|name| + 1..] == environment
  {
    name + ":" + environment
  }

  /** Every entry is stored under the key of its own name and environment. */
  predicate WellKeyed(reg: InMemoryRegistry) {
    forall k :: k in reg.services ==>
      k == GenerateKey(reg.services[k].name, reg.services[k].environment)
  }

  /** `InMemoryRegistry::new`: nothing resolves and nothing is listed. */
  function New(): (reg: InMemoryRegistry)
    ensures WellKeyed(reg)
    ensures |reg.services| == 0
    ensures forall name, environment :: Resolve(reg, name, environment) == None
  {
    InMemoryRegistry(map[])
  }

  /**
   `register`: insert-if-absent under the entry's key. On a taken key the
   call fails with `AlreadyExists` and the table is unchanged; otherwise
   exactly that key is added and every stored key keeps its entry.
   */
  function Register(reg: InMemoryRegistry, entry: ServiceEntry): (r: Step)
    ensures var key := GenerateKey(entry.name, entry.environment);
            && (key in reg.services <==> r.result == Err(AlreadyExists))
            && (key in reg.services ==> r.registry == reg)
            && (key !in reg.services ==>
                  r.result == Ok
                  && r.registry.services.Keys == reg.services.Keys + {key}
                  && r.registry.services[key] == entry)
    ensures forall k :: k in reg.services ==>
              k in r.registry.services && r.registry.services[k] == reg.services[k]
    ensures WellKeyed(reg) ==> WellKeyed(r.registry)
  {
    var key := GenerateKey(entry.name, entry.environment);
    if key in reg.services then Step(reg, Err(AlreadyExists))
    else Step(InMemoryRegistry(reg.services[key := entry]), Ok)
  }

  /**
   `resolve`: exact lookup of the key of `name` and `environment`. Under
   `WellKeyed` the answer's own key is the one asked for.
   */
  function Resolve(reg: InMemoryRegistry, name: string, environment: string): (r: Option<ServiceEntry>)
    ensures r.Some? <==> GenerateKey(name, environment) in reg.services
    ensures r.Some? ==> r.value == reg.services[GenerateKey(name, environment)]
    ensures WellKeyed(reg) && r.Some? ==>
              GenerateKey(r.value.name, r.value.environment) == GenerateKey(name, environment)
  {
    var key := GenerateKey(name, environment);
    if key in reg.services then Some(reg.services[key]) else None
  }

  /** The keys `deregister(name, None)` removes: those starting with `name:`. */
  predicate MatchesName(key: string, name: string) {
    StartsWith(key, name + ":")
  }

  /**
   `deregister`. With an environment it removes that one key, or fails
   with `NotFound` if it is absent. Without one it removes exactly the keys
   that start with `name:`, and fails with `NotFound` if there are none.
   A failed call leaves the table unchanged; a successful one keeps every
   other key with its entry. It never reports any other error.
   */
  function Deregister(reg: InMemoryRegistry, name: string, environment: Option<string>): (r: Step)
    ensures r.result == Ok || r.result == Err(NotFound)
    ensures r.result.Err? ==> r.registry == reg
    ensures forall k :: k in r.registry.services ==>
              k in reg.services && r.registry.services[k] == reg.services[k]
    ensures environment.Some? ==>
              var key := GenerateKey(name, environment.value);
              && (r.result == Ok <==> key in reg.services)
              && r.registry.services.Keys == reg.services.Keys - {key}
    ensures environment.None? ==>
              && (r.result == Err(NotFound) <==> forall k :: k in reg.services ==> !MatchesName(k, name))
              && (forall k :: k in r.registry.services <==> k in reg.services && !MatchesName(k, name))
    ensures WellKeyed(reg) ==> WellKeyed(r.registry)
  {
    match environment
    case Some(env) =>
      var key := GenerateKey(name, env);
      if key in reg.services then Step(InMemoryRegistry(reg.services - {key}), Ok)
      else Step(reg, Err(NotFound))
    case None =>
      var doomed := set k | k in reg.services && MatchesName(k, name);
      assert forall k :: k in reg.services && MatchesName(k, name) ==> k in doomed;
      if doomed == {} then Step(reg, Err(NotFound))
      else Step(InMemoryRegistry(reg.services - doomed), Ok)
  }

  /**
   `list`: every stored entry exactly once, in the order of some
   enumeration of the keys (a `HashMap` promises no order, so the method
   picks keys arbitrarily). `order` is that enumeration.
   */
  method List(reg: InMemoryRegistry) returns (entries: seq<ServiceEntry>, ghost order: seq<string>)
    ensures |entries| == |reg.services|
    ensures forall e :: e in entries <==> e in reg.services.Values
    ensures |order| == |reg.services|
    ensures forall k :: k in reg.services <==> k in order
    ensures forall i, j :: 0 <= i < j < |order| ==> order[i] != order[j]
    ensures forall i :: 0 <= i < |order| ==> order[i] in reg.services && entries[i] == reg.services[order[i]]
  {
    var remaining := reg.services.Keys;
    entries := [];
    order := [];
    while remaining != {}
      invariant remaining <= reg.services.Keys
      invariant forall k :: k in reg.services ==> (k in remaining <==> k !in order)
      invariant forall i, j :: 0 <= i < j < |order| ==> order[i] != order[j]
      invariant |entries| == |order| && |order| + |remaining| == |reg.services|
      invariant forall i :: 0 <= i < |order| ==> order[i] in reg.services && entries[i] == reg.services[order[i]]
      decreases remaining
    {
      var k :| k in remaining;
      entries := entries + [reg.services[k]];
      order := order + [k];
      remaining := remaining - {k};
    }
  }

  // Properties relating several operations.

  /** After a successful `register`, the entry resolves under its own name and environment. */
  lemma RegisterThenResolve(reg: InMemoryRegistry, entry: ServiceEntry, name: string, environment: string)
    requires Register(reg, entry).result == Ok
    ensures Resolve(Register(reg, entry).registry, entry.name, entry.environment) == Some(entry)
    ensures GenerateKey(name, environment) != GenerateKey(entry.name, entry.environment) ==>
              Resolve(Register(reg, entry).registry, name, environment) == Resolve(reg, name, environment)
  {
  }

  /** Registering the same name and environment again fails, whatever the first call returned. */
  lemma RegisterTwice(reg: InMemoryRegistry, first: ServiceEntry, second: ServiceEntry)
    requires first.name == second.name && first.environment == second.environment
    ensures Register(Register(reg, first).registry, second).result == Err(AlreadyExists)
  {
  }

  /** With colon-free names, equal keys mean equal names and environments. */
  lemma {:induction false} KeyInjective(n1: string, e1: string, n2: string, e2: string)
    requires ':' !in n1 && ':' !in n2
    requires GenerateKey(n1, e1) == GenerateKey(n2, e2)
    ensures n1 == n2 && e1 == e2
  {
  }

  /**
   The key of `("service1", "dev")` is `service1:dev`, and the key does not
   tell `("a:b", "c")` from `("a", "b:c")`.
   */
  lemma KeyCollision()
    ensures GenerateKey("service1", "dev") == "service1:dev"
    ensures GenerateKey("a:b", "c") == GenerateKey("a", "b:c") == "a:b:c"
  {
  }

  /**
   In a well-keyed registry, resolving a colon-free name returns an entry
   with exactly that name and environment, when the entry's name is also
   colon-free.
   */
  lemma ResolveExact(reg: InMemoryRegistry, name: string, environment: string)
    requires WellKeyed(reg) && ':' !in name
    requires Resolve(reg, name, environment).Some?
    requires ':' !in Resolve(reg, name, environment).value.name
    ensures Resolve(reg, name, environment).value.name == name
    ensures Resolve(reg, name, environment).value.environment == environment
  {
    var x := Resolve(reg, name, environment).value;
    KeyInjective(x.name, x.environment, name, environment);
  }

  /**
   Registering `("a", "b:c")` after `("a:b", "c")` fails, and resolving
   `("a", "b:c")` answers with the entry named `a:b`.
   */
  lemma CollidingRegistration(x: ServiceEntry, y: ServiceEntry)
    requires x.name == "a:b" && x.environment == "c"
    requires y.name == "a" && y.environment == "b:c"
    ensures var r1 := Register(New(), x);
            && r1.result == Ok
            && Register(r1.registry, y).result == Err(AlreadyExists)
            && Resolve(r1.registry, "a", "b:c") == Some(x)
  {
    KeyCollision();
  }

  /** Deregistering one environment removes it and no other environment of the name. */
  lemma DeregisterOneEnvironment(reg: InMemoryRegistry, name: string, env: string, other: string)
    requires env != other
    ensures var after := Deregister(reg, name, Some(env)).registry;
            && Resolve(after, name, env) == None
            && Resolve(after, name, other) == Resolve(reg, name, other)
  {
    assert GenerateKey(name, env)[|name| + 1..] != GenerateKey(name, other)[|name| + 1..];
  }

  /** Every key made from `name` starts with `name:`. */
  lemma KeyMatchesName(name: string, environment: string)
    ensures MatchesName(GenerateKey(name, environment), name)
  {
    assert GenerateKey(name, environment)[..|name| + 1] == name + ":";
  }

  /** After deregistering a name across environments, it resolves in none of them. */
  lemma DeregisterAllClears(reg: InMemoryRegistry, name: string, environment: string)
    ensures Resolve(Deregister(reg, name, None).registry, name, environment) == None
  {
    KeyMatchesName(name, environment);
  }

  /** A second deregistration of the same name, in either mode, fails with `NotFound`. */
  lemma DeregisterTwice(reg: InMemoryRegistry, name: string, environment: Option<string>)
    ensures var after := Deregister(reg, name, environment).registry;
            Deregister(after, name, environment).result == Err(NotFound)
  {
  }

  /**
   For a colon-free `name` and a well-keyed registry, deregistering across
   environments removes exactly the entries whose name is `name` or starts
   with `name:`; the second group is the over-reach of the prefix test.
   */
  lemma {:induction false} DeregisterAllRemoves(reg: InMemoryRegistry, name: string, k: string)
    requires WellKeyed(reg) && ':' !in name && k in reg.services
    ensures var x := reg.services[k];
            k !in Deregister(reg, name, None).registry.services <==>
              x.name == name || StartsWith(x.name, name + ":")
  {
    var x := reg.services[k];
    var p := name + ":";
    var n := |name|;
    assert k == GenerateKey(x.name, x.environment);
    if |x.name| < n {
      assert k[|x.name|] == ':';
      assert name[|x.name|] != ':' by { assert name[|x.name|] in name; }
      if |p| <= |k| {
        assert k[..|p|][|x.name|] == k[|x.name|] != p[|x.name|];
      }
    } else if |x.name| == n {
      assert k[..n + 1] == x.name + ":";
      if StartsWith(k, p) {
        assert x.name == k[..n] == name;
      }
    } else {
      assert k[..n + 1] == x.name[..n + 1];
    }
  }

  /** Deregistering `a` across environments also removes an entry named `a:b`. */
  lemma DeregisterAllOverreach(x: ServiceEntry)
    requires x.name == "a:b"
    ensures var r1 := Register(New(), x);
            && Deregister(r1.registry, "a", None).result == Ok
            && Deregister(r1.registry, "a", None).registry.services == map[]
  {
    var r1 := Register(New(), x);
    assert GenerateKey(x.name, x.environment)[..2] == "a:";
  }

  /**
   The registry tests' set-up: `service1` in `dev` and `prod` and
   `service2` in `dev` all register, under three distinct keys.
   */
  lemma ThreeRegistrations(a: ServiceEntry, b: ServiceEntry, c: ServiceEntry)
    requires a.name == "service1" && a.environment == "dev"
    requires b.name == "service1" && b.environment == "prod"
    requires c.name == "service2" && c.environment == "dev"
    ensures var r1 := Register(New(), a);
            var r2 := Register(r1.registry, b);
            var r3 := Register(r2.registry, c);
            && r1.result == Ok && r2.result == Ok && r3.result == Ok
            && r3.registry.services == map["service1:dev" := a, "service1:prod" := b, "service2:dev" := c]
  {
    var ka, kb, kc := GenerateKey(a.name, a.environment), GenerateKey(b.name, b.environment), GenerateKey(c.name, c.environment);
    assert ka == "service1:dev" && kb == "service1:prod" && kc == "service2:dev";
    assert kb != ka by { assert kb[9] != ka[9]; }
    assert kc != ka && kc != kb by { assert kc[7] != ka[7] && kc[7] != kb[7]; }
    var r1 := Register(New(), a);
    assert r1.result == Ok && r1.registry.services == map[ka := a];
    var r2 := Register(r1.registry, b);
    assert r2.result == Ok && r2.registry.services == map[ka := a, kb := b];
    var r3 := Register(r2.registry, c);
    assert r3.result == Ok && r3.registry.services == map[ka := a, kb := b, kc := c];
  }

  /**
   The registry tests' scenario: after the three registrations,
   deregistering `service1` across environments succeeds and removes both
   of its entries.
   */
  lemma DeregisterAllScenario(a: ServiceEntry, b: ServiceEntry, c: ServiceEntry)
    requires a.name == "service1" && a.environment == "dev"
    requires b.name == "service1" && b.environment == "prod"
    requires c.name == "service2" && c.environment == "dev"
    ensures var reg := InMemoryRegistry(map["service1:dev" := a, "service1:prod" := b, "service2:dev" := c]);
            var d := Deregister(reg, "service1", None);
            && d.result == Ok
            && Resolve(d.registry, "service1", "dev") == None
            && Resolve(d.registry, "service1", "prod") == None
  {
    var reg := InMemoryRegistry(map["service1:dev" := a, "service1:prod" := b, "service2:dev" := c]);
    DeregisterAllClears(reg, "service1", "dev");
    DeregisterAllClears(reg, "service1", "prod");
    KeyMatchesName("service1", "dev");
    assert GenerateKey("service1", "dev") == "service1:dev";
  }

  /** In the same scenario, the entry of `service2` survives the deregistration of `service1`. */
  lemma DeregisterAllScenarioKeeps(a: ServiceEntry, b: ServiceEntry, c: ServiceEntry)
    requires a.name == "service1" && a.environment == "dev"
    requires b.name == "service1" && b.environment == "prod"
    requires c.name == "service2" && c.environment == "dev"
    ensures var reg := InMemoryRegistry(map["service1:dev" := a, "service1:prod" := b, "service2:dev" := c]);
            Resolve(Deregister(reg, "service1", None).registry, "service2", "dev") == Some(c)
  {
    assert GenerateKey("service2", "dev") == "service2:dev";
    assert !MatchesName("service2:dev", "service1") by {
      DiffersAt("service2:dev", "service1" + ":", 7);
    }
  }

  /** A colon-free text never starts with `name:`. */
  lemma ColonFreeNoPrefix(t: string, name: string)
    requires ':' !in t
    ensures !StartsWith(t, name + ":")
  {
    if |name| + 1 <= |t| {
      assert t[..|name| + 1][|name|] == t[|name|];
      assert t[|name|] in t;
    }
  }

  /**
   When the name and every stored name are colon-free, deregistering the
   name across environments removes exactly the entries with that name:
   the prefix test then over-reaches nowhere.
   */
  lemma DeregisterAllExact(reg: InMemoryRegistry, name: string)
    requires WellKeyed(reg) && ':' !in name
    requires forall k :: k in reg.services ==> ':' !in reg.services[k].name
    ensures forall k :: k in reg.services ==>
              (k !in Deregister(reg, name, None).registry.services <==> reg.services[k].name == name)
  {
    forall k | k in reg.services
      ensures k !in Deregister(reg, name, None).registry.services <==> reg.services[k].name == name
    {
      DeregisterAllRemoves(reg, name, k);
      ColonFreeNoPrefix(reg.services[k].name, name);
    }
  }
}
