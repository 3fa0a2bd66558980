/** The customer entity and the request payloads shared by the service and its
    data-access layer. */
module Customers {

  /** Java's nullable reference or `Optional`: `None` stands for `null` / empty. */
  datatype Option<+T> = None | Some(value: T)

  /** A stored customer. The id is absent until storage assigns one; the list
      store never assigns it, so a customer registered through the service
      stays without an id. */
  datatype Customer = Customer(id: Option<int>, name: string, email: string, age: int)

  /** The payload of a registration: always turned into a Customer before storage. */
  datatype RegistrationRequest = RegistrationRequest(name: string, email: string, age: int)

  /** The payload of a partial edit: each field independently present or absent. */
  datatype EditRequest = EditRequest(name: Option<string>, email: Option<string>, age: Option<int>)

  /** How a call into the list store ends: it returns a value, or a comparison
      `c.getId().equals(...)` on an entry whose id is null throws a
      NullPointerException. */
  datatype Outcome<+T> = Returned(value: T) | NullPointer
}
