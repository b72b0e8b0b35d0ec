/**
 The registry's record and error types. The Rust `ServiceRegistry` trait
 only fixes operation signatures; its one implementation is modelled in
 `InMemoryRegistry`. `register`, `resolve` and `list` there have the
 trait's shapes: `resolve` answers with an `Option` (at most one entry per
 name and environment), `register` reports failure only through
 `RegistryError`, and `list` returns a sequence with no promised order.
 The trait declares `unregister(name, environment)`, but the
 implementation provides `deregister(name, Option<environment>)`; the model
 follows the implementation.
 */
module Registry {

  /** One registered service: four caller-supplied fields, nothing else. */
  datatype ServiceEntry = ServiceEntry(
    name: string,
    environment: string,
    address: string,
    tags: seq<string>)

  /** The three failure kinds a registry may report. */
  datatype RegistryError =
    | AlreadyExists
    | NotFound
    | InternalError(detail: string)

  /** Rust's `Result<(), RegistryError>`. */
  datatype RegistryResult = Ok | Err(error: RegistryError)

}
