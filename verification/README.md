# Service registry core, in Dafny

This project models the core of a minimal service directory: an in-memory
registry, and a connection-address type with two read-only queries.

The in-memory registry (`InMemoryRegistry`):
- It is a table from the string key `name:environment` to a `ServiceEntry`.
- Callers can register an entry, resolve one by name and environment,
  deregister one environment or every environment of a name, and list
  everything stored.

The address type (`ServiceAddress`):
- It keeps a connection string verbatim.
- It can report the port the string names, if any.
- It can report whether the string starts with one of five secure schemes.

Modules, one per source file or concern:

| module | file | what it holds |
|---|---|---|
| `Wrappers` | `wrappers.dfy` | `Option` |
| `Strings` | `strings.dfy` | Substring search. Rust's `starts_with`, `contains`, and the first and second pieces of `split(sep)`. |
| `U16` | `u16.dfy` | `str::parse::<u16>` and its partner, the decimal rendering of a number. |
| `Address` | `service_address.dfy` | `ServiceAddress`: `from_string`, `as_str`, `extract_port`, `is_secure` |
| `Registry` | `service_registry.dfy` | `ServiceEntry`, `RegistryError`, and the `Result<(), RegistryError>` shape |
| `InMemory` | `in_memory_registry.dfy` | `InMemoryRegistry`: `generate_key`, `new`, `register`, `resolve`, `deregister`, `list` |

How the Rust code is represented:
- Every `&mut self` operation becomes a function. It returns a `Step`: the
  registry after the call, plus what the call returned.
- `&self` operations return only their answer.
- The registry is an immutable value, so "`resolve`, `extract_port` and
  `is_secure` change nothing" holds by construction.
- `list` is a method. A `HashMap` promises no iteration order, so the method
  picks the keys in an arbitrary order.

What the code does, and therefore what the model does:
- **Keyed by name and environment.** The code has no ids, heartbeat,
  timestamps or health status. The table is keyed by `name:environment`, so
  `resolve` returns an `Option`, and `register` rejects a second entry for
  the same pair.
- **`tags` is a list.** `ServiceEntry.tags` is a `Vec<String>`, modelled as
  `seq<string>`.
- **The port follows the first `:`.** `extract_port` reads the piece after
  the first `:` of the host part, so `localhost:80:90` yields 80
  (`Address.ExtractPortFirstColon`).
- **No locking.** The operations take `&self`/`&mut self` with no lock, so
  nothing concurrent is modelled.
- **`unregister` versus `deregister`.** The `ServiceRegistry` trait declares
  `unregister(name, environment)` (src/model/service_registry.rs:12). The
  implementation provides `deregister(name, Option<environment>)`
  (src/registry/in_memory_registry.rs:36). `InMemory.Deregister` follows
  the implementation's signature, not the trait's.

Two consequences of the string key are kept as the code has them, not
corrected:
- **Key collisions.** `("a:b", "c")` and `("a", "b:c")` share the key
  `a:b:c` (`InMemory.KeyCollision`, `InMemory.CollidingRegistration`).
- **Deregistration over-reach.** `deregister("a", None)` also removes an
  entry named `a:b`, because the filter at
  src/registry/in_memory_registry.rs:50 is a prefix test on `a:`
  (`InMemory.DeregisterAllOverreach`, `InMemory.DeregisterAllRemoves`).
- Neither arises when names contain no `:`. For keys, `InMemory.KeyInjective`
  and `InMemory.ResolveExact` show this. For deregistration,
  `InMemory.DeregisterAllExact` shows it: when the name and every stored name
  are colon-free, exactly the entries with that name are removed.

## Model

| member | source | states |
|---|---|---|
| Address.FromString | src/model/service_address.rs:12-14 | The stored text reads back unchanged through `as_str`: no normalisation or validation. |
| Address.AsStrFromString | src/model/service_address.rs:12-21 | `from_string` and `as_str` are inverse in both directions. |
| Address.SchemePrefix | src/model/service_address.rs:62-66 | For a scheme without `:`, a text starts with `scheme://` iff it contains `://` and the text before the first `://` is the scheme. |
| Address.IsSecureIffSecureScheme | src/model/service_address.rs:59-69 | `is_secure` holds iff the address contains `://` and the text before the first one is `https`, `wss`, `ftps`, `sftp` or `ssh`. |
| Address.NotSecureByHead | src/model/service_address.rs:59-69 | An empty address, or one whose first character is none of `h`, `w`, `f`, `s` (the first characters of the five secure prefixes), is not secure. |
| Address.SchemeLessNotSecure | src/model/service_address.rs:59-69 | An address that contains no `://` is not secure, whatever it starts with: every secure prefix ends in `://`. |
| Address.HttpNotSecure | src/model/service_address.rs:62-66 | `http://` followed by anything is not secure. |
| Address.WsNotSecure | src/model/service_address.rs:62-66 | `ws://` followed by anything is not secure. |
| Address.FtpNotSecure | src/model/service_address.rs:62-66 | `ftp://` followed by anything is not secure. |
| Address.IsSecureExamples | src/model/service_address.rs:121-145 | The five secure addresses of the unit test are secure. |
| Address.IsNotSecureExamples | src/model/service_address.rs:130-154 | The five insecure addresses of the unit test are not secure. |
| Address.PortOfHostComposed | src/model/service_address.rs:37-43 | For a host without `:`, `host:port` followed by nothing, or by text starting with `/` or `:`, yields that port. |
| Address.ExtractPortWithScheme | src/model/service_address.rs:29-43 | `scheme://host:port…` yields `port` for every `u16`, when scheme and host have no `:` and the rest starts with `/` or `:` (or is empty). |
| Address.ExtractPortWithoutScheme | src/model/service_address.rs:44-52 | Without any `://`, `host:port…` yields `port` under the same conditions. |
| Address.ExtractPortWithoutColon | src/model/service_address.rs:44-49 | An address with no `:` at all has no port. |
| Address.ExtractPortSchemeWithoutPort | src/model/service_address.rs:29-40 | `scheme://host` with no `:` in scheme or host has no port. |
| Address.ExtractPortAfterFirstScheme | src/model/service_address.rs:29-43 | The port equals the port of all the text after the first `://`. The second split on `://` never changes the answer, and its `parts.len() < 2` branch is never taken. |
| Address.SecondCutIrrelevant | src/model/service_address.rs:31-37 | Cutting the host part at its first `://` leaves its port unchanged. |
| Address.CutAfterColon | src/model/service_address.rs:37-43 | When the host part has a `:` before a later `://`, the port piece ends at the same place with or without the `://` tail. |
| Address.CutBeforeColon | src/model/service_address.rs:37-40 | When the only `:` before a `://` is the one of `://`, neither form yields a port. |
| Address.ExtractPortHttpExample | src/model/service_address.rs:92-93 | `http://localhost:8080` yields 8080. |
| Address.ExtractPortHttpsExample | src/model/service_address.rs:95-96 | `https://api.example.com:443` yields 443. |
| Address.ExtractPortPathExample | src/model/service_address.rs:98-99 | `http://localhost:8080/api/v1` yields 8080. |
| Address.ExtractPortLocalhostExample | src/model/service_address.rs:104-105 | `localhost:8080` yields 8080. |
| Address.ExtractPortLoopbackExample | src/model/service_address.rs:107-108 | `127.0.0.1:9090` yields 9090. |
| Address.ExtractPortNoColonExample | src/model/service_address.rs:113-114 | `localhost` has no port. |
| Address.ExtractPortNoPortExample | src/model/service_address.rs:116-117 | `http://localhost` has no port. |
| Address.ExtractPortFirstColon | src/model/service_address.rs:46-51 | `localhost:80:90` yields 80: the piece after the first `:` is read. |
| Strings.IndexOf | src/model/service_address.rs:29 | The answer is an occurrence of the pattern with none before it. `None` means no occurrence anywhere. |
| Strings.FirstField | src/model/service_address.rs:43 | `split(sep).next()` is the prefix before the first separator, or the whole text when there is none. No separator starts inside it. |
| Strings.SecondField | src/model/service_address.rs:31-37 | `split(sep)` has a second piece iff the separator occurs. That piece is the text of `s` that starts right after the first separator. No separator starts inside the piece, and the piece ends at the next separator or at the end of `s`. |
| Strings.FirstFieldSkip | src/model/service_address.rs:31 | Splitting `u + t`, where no separator starts inside `u`, gives `u` followed by the first field of `t`. |
| U16.ParseU16 | src/model/service_address.rs:43 | `parse::<u16>` rejects empty text. An accepted text is an optional `+` then digits, and the value is their decimal value. |
| U16.Decimal | src/model/service_address.rs:51 | The rendering of a number is a non-empty digit string without a leading zero whose value is the number. |
| U16.ParseU16Accepted | src/model/service_address.rs:51 | Every text `parse::<u16>` accepts is an optional `+`, some `0`s, and the rendering of the value. |
| U16.ParseU16Accepts | src/model/service_address.rs:51 | Conversely, every such text parses to that value. |
| U16.ParseDecimal | src/model/service_address.rs:43 | Rendering a `u16` and parsing it back gives the same number. |
| U16.ParseU16Overflow | src/model/service_address.rs:43 | A value above 65535 is rejected, with or without leading zeros. |
| U16.ParseU16NonDigit | src/model/service_address.rs:43 | A non-digit after the optional `+` makes the parse fail. |
| U16.CanonicalSuffix | src/model/service_address.rs:43 | Every digit string is leading `0`s followed by the rendering of its value. |
| U16.LeadingZeros | src/model/service_address.rs:43 | Leading `0`s do not change the parsed value. |
| InMemory.GenerateKey | src/registry/in_memory_registry.rs:15-17 | The key is the name, then one `:`, then the environment, positionally. |
| InMemory.KeyCollision | src/registry/in_memory_registry.rs:85-90 | The key of `("service1", "dev")` is `service1:dev`. `("a:b", "c")` and `("a", "b:c")` share a key. |
| InMemory.KeyInjective | src/registry/in_memory_registry.rs:15-17 | When names have no `:`, equal keys mean equal names and environments. |
| InMemory.New | src/registry/in_memory_registry.rs:9-13 | A new registry is empty and well keyed, and nothing resolves in it. |
| InMemory.Register | src/registry/in_memory_registry.rs:21-29 | A taken key gives `AlreadyExists` and leaves the table unchanged. Otherwise the result is `Ok` and exactly the entry's key is added with the entry. Every stored key keeps its entry, and the result is never `InternalError`. Well-keyedness is preserved. |
| InMemory.Resolve | src/registry/in_memory_registry.rs:31-34 | Returns `Some` iff the key of the name and environment is stored, with the entry stored under it. In a well-keyed table, the entry's own key is the key asked for. |
| InMemory.RegisterThenResolve | src/registry/in_memory_registry.rs:93-107 | After a successful `register` the entry resolves under its own name and environment. Every other key resolves as before. |
| InMemory.RegisterTwice | src/registry/in_memory_registry.rs:110-125 | Registering the same name and environment twice makes the second call fail with `AlreadyExists`. |
| InMemory.ResolveExact | src/registry/in_memory_registry.rs:128-139 | In a well-keyed table with colon-free names, a resolved entry has exactly the requested name and environment. |
| InMemory.CollidingRegistration | src/registry/in_memory_registry.rs:21-34 | After registering `("a:b", "c")`, registering `("a", "b:c")` fails, and resolving `("a", "b:c")` returns the `a:b` entry. |
| InMemory.Deregister | src/registry/in_memory_registry.rs:36-64 | The result is `Ok` or `NotFound`, never `InternalError`. A failure leaves the table unchanged, and every remaining key keeps its entry. With an environment, exactly that key is removed, with `Ok` iff it was present. Without one, exactly the keys starting with `name:` are removed, with `NotFound` iff there are none. Well-keyedness is preserved. |
| InMemory.DeregisterOneEnvironment | src/registry/in_memory_registry.rs:150-168 | Deregistering one environment removes it and leaves every other environment of the name resolving as before. |
| InMemory.KeyMatchesName | src/registry/in_memory_registry.rs:47-50 | Every key made from a name passes the all-environments filter for that name. |
| InMemory.DeregisterAllClears | src/registry/in_memory_registry.rs:45-62 | After deregistering a name across environments, it resolves in no environment. |
| InMemory.DeregisterTwice | src/registry/in_memory_registry.rs:40-56 | A second deregistration with the same arguments, in either mode, fails with `NotFound`. It takes the `NotFound` branch at line 43 or at lines 54-56. |
| InMemory.DeregisterAllRemoves | src/registry/in_memory_registry.rs:47-52 | For a colon-free name in a well-keyed table, an entry is removed iff its name is that name or starts with `name:`. |
| InMemory.DeregisterAllExact | src/registry/in_memory_registry.rs:47-52 | When the name and every stored name are colon-free in a well-keyed table, deregistering across environments removes an entry iff its name is that name: there is no over-reach. |
| InMemory.DeregisterAllOverreach | src/registry/in_memory_registry.rs:50 | Deregistering `a` across environments removes an entry named `a:b`. |
| InMemory.ThreeRegistrations | src/registry/in_memory_registry.rs:171-182 | The three registrations of the tests all succeed, under three distinct keys. |
| InMemory.DeregisterAllScenario | src/registry/in_memory_registry.rs:171-191 | Deregistering `service1` across environments succeeds and removes both of its entries. |
| InMemory.DeregisterAllScenarioKeeps | src/registry/in_memory_registry.rs:193-194 | `service2` in `dev` still resolves to its entry afterwards. |
| InMemory.List | src/registry/in_memory_registry.rs:66-68 | Returns as many entries as there are keys. An entry is listed iff it is a stored value. Following some enumeration of the keys, each key's entry appears exactly once. A new registry lists nothing. |

## Left out

- src/api/services.rs, src/main.rs and tests/binary_tests.rs: the HTTP route handlers, the runtime bootstrap and the process-level tests are I/O glue, not part of this model.
- The serde `Serialize`/`Deserialize` derive of `ServiceAddress` (src/model/service_address.rs:3-4, 157-170): a library derive with no visible logic.
- The `ServiceRegistry` trait as a type: the model has one implementation, so its operations are plain functions over `InMemoryRegistry`. `Register`, `Resolve` and `List` have the trait's signatures. `Deregister` has the implementation's `deregister(name, Option<environment>)` signature, not the trait's `unregister(name, environment)`.
- `RegistryError::InternalError` is declared but never produced; the contracts of `Register` and `Deregister` state that it never is.
- `HashMap` iteration order: `List` returns the entries in an arbitrary enumeration of the keys rather than a fixed order.
- Concurrency: the Rust code has no locking, so there is nothing concurrent to model.
- U16.ParseU16: only the inputs the standard library documents are modelled: an optional `+`, ASCII digits, and the 65535 bound. Error kinds are collapsed into `None`.
- Address.ExtractPort has no contract of its own: its behaviour is stated by the `ExtractPort…` lemmas, which cover the address shapes the code distinguishes.
- Address.ExtractPortWithScheme and Address.ExtractPortWithoutScheme: stated for hosts and schemes without `:` and for text after the port that starts with `/` or `:`. `Address.ExtractPortAfterFirstScheme` covers every input, but in terms of the split pieces, not a closed form.
