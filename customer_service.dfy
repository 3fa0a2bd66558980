/** The business-rule layer: lookups that fail when the id is absent, the
    duplicate-email guard, and the partial-update workflow, delegating storage
    to the list-backed data-access service. */
module Service {
  import opened Customers
  import opened ListStore

  /** The exceptions the service raises, plus the NullPointerException that the
      list store's id comparisons can throw and the service lets through. */
  datatype Error =
    | ResourceNotFound
    | NoCustomerException
    | DuplicateResource
    | NoCustomerDataEdited
    | NullPointerThrown

  datatype Result<+T> = Ok(value: T) | Err(error: Error)

  /** The request supplies a value for a field and it differs from the stored one. */
  predicate Differs<T(==)>(stored: T, requested: Option<T>)
  {
    requested.Some? && requested.value != stored
  }

  /** The stored customer with the partial edit applied: a field takes the
      request's value when one is supplied, and keeps its value otherwise; the
      id is never touched. */
  function Edited(c: Customer, req: EditRequest): (e: Customer)
    ensures e.id == c.id
    ensures e.name == (if req.name.Some? then req.name.value else c.name)
    ensures e.email == (if req.email.Some? then req.email.value else c.email)
    ensures e.age == (if req.age.Some? then req.age.value else c.age)
  {
    var name := if Differs(c.name, req.name) then req.name.value else c.name;
    var email := if Differs(c.email, req.email) then req.email.value else c.email;
    var age := if Differs(c.age, req.age) then req.age.value else c.age;
    c.(name := name, email := email, age := age)
  }

  /** At least one supplied field differs from the stored one; this is exactly
      when the edit would change the customer. */
  predicate HasChanges(c: Customer, req: EditRequest)
    ensures HasChanges(c, req) <==> Edited(c, req) != c
  {
    Differs(c.name, req.name) || Differs(c.email, req.email) || Differs(c.age, req.age)
  }

  /** An edit applied twice changes nothing the second time, so repeating an
      accepted edit request is rejected as having no changes. */
  lemma EditIsIdempotent(c: Customer, req: EditRequest)
    ensures Edited(Edited(c, req), req) == Edited(c, req)
    ensures !HasChanges(Edited(c, req), req)
  {
  }

  /** An edit request that repeats every stored value has no changes. */
  lemma EchoedRequestHasNoChanges(c: Customer)
    ensures !HasChanges(c, EditRequest(Some(c.name), Some(c.email), Some(c.age)))
    ensures !HasChanges(c, EditRequest(None, None, None))
  {
  }

  /** Because the list store appends on update, an accepted edit that keeps the
      email leaves two entries with that email (and that id) in the list. */
  lemma AppendedUpdateDuplicatesEmail(s: seq<Customer>, id: int, req: EditRequest)
    requires SelectById(s, id).Returned? && SelectById(s, id).value.Some?
    requires !Differs(SelectById(s, id).value.value.email, req.email)
    ensures !UniqueEmails(s + [Edited(SelectById(s, id).value.value, req)])
  {
    SelectByIdSpec(s, id);
    var c := SelectById(s, id).value.value;
    var k :| 0 <= k < |s| && PassedOver(s, id, k) && s[k] == c && c.id == Some(id);
    var t := s + [Edited(c, req)];
    assert t[k] == c && t[|s|] == Edited(c, req);
  }

  /** The service, wired to the list-backed store it delegates to. */
  class CustomerService {
    const dao: CustomerListDataAccessService

    constructor (dao: CustomerListDataAccessService)
      ensures this.dao == dao
    {
      this.dao := dao;
    }

    method GetAllCustomers() returns (r: seq<Customer>)
      ensures r == dao.customers
    {
      r := dao.SelectAllCustomers();
    }

    /** The stored customer when the lookup finds one, ResourceNotFound when it
        is empty. */
    method GetCustomer(id: int) returns (r: Result<Customer>)
      ensures match SelectById(dao.customers, id)
              case Returned(Some(c)) => r == Ok(c)
              case Returned(None) => r == Err(ResourceNotFound)
              case NullPointer => r == Err(NullPointerThrown)
    {
      var found := dao.SelectCustomerById(id);
      match found
      case Returned(Some(c)) => r := Ok(c);
      case Returned(None) => r := Err(ResourceNotFound);
      case NullPointer => r := Err(NullPointerThrown);
    }

    /** Rejects a taken email without inserting; otherwise inserts a customer
        with no id and the request's fields. */
    method AddCustomer(req: RegistrationRequest) returns (r: Result<()>)
      modifies dao
      ensures EmailTaken(old(dao.customers), req.email) ==>
                r == Err(DuplicateResource) && dao.customers == old(dao.customers)
      ensures !EmailTaken(old(dao.customers), req.email) ==>
                r == Ok(()) &&
                dao.customers == old(dao.customers) + [Customer(None, req.name, req.email, req.age)]
    {
      var taken := dao.ExistsPersonWithEmail(req.email);
      if taken {
        return Err(DuplicateResource);
      }
      var customer := Customer(None, req.name, req.email, req.age);
      dao.InsertCustomer(customer);
      r := Ok(());
    }

    /** Rejects an id the store does not hold without deleting; otherwise
        deletes every entry with that id. */
    method DeleteCustomerById(id: int) returns (r: Result<()>)
      modifies dao
      ensures match ExistsId(old(dao.customers), id)
              case Returned(false) =>
                r == Err(NoCustomerException) && dao.customers == old(dao.customers)
              case NullPointer =>
                r == Err(NullPointerThrown) && dao.customers == old(dao.customers)
              case Returned(true) =>
                if AllIdsPresent(old(dao.customers))
                then r == Ok(()) && dao.customers == Without(old(dao.customers), id)
                else r == Err(NullPointerThrown) && dao.customers == old(dao.customers)
    {
      var present := dao.ExistsCustomerWithId(id);
      match present
      case NullPointer =>
        return Err(NullPointerThrown);
      case Returned(false) =>
        return Err(NoCustomerException);
      case Returned(true) =>
        var deleted := dao.DeleteCustomerById(id);
        r := if deleted.NullPointer? then Err(NullPointerThrown) else Ok(());
    }

    /** Fetches the customer (failing as GetCustomer does), applies the supplied
        fields that differ, checks a changing email against the store, rejects
        an edit that changes nothing, and hands the fetched customer, with its
        own id, to the store's update. */
    method UpdateCustomer(id: int, req: EditRequest) returns (r: Result<()>)
      modifies dao
      ensures match SelectById(old(dao.customers), id)
              case NullPointer =>
                r == Err(NullPointerThrown) && dao.customers == old(dao.customers)
              case Returned(None) =>
                r == Err(ResourceNotFound) && dao.customers == old(dao.customers)
              case Returned(Some(c)) =>
                if Differs(c.email, req.email) && EmailTaken(old(dao.customers), req.email.value)
                then r == Err(DuplicateResource) && dao.customers == old(dao.customers)
                else if !HasChanges(c, req)
                then r == Err(NoCustomerDataEdited) && dao.customers == old(dao.customers)
                else r == Ok(()) && dao.customers == old(dao.customers) + [Edited(c, req)]
    {
      var found := GetCustomer(id);
      if found.Err? {
        return Err(found.error);
      }
      var customer := found.value;
      ghost var stored := customer;
      var changes := false;

      if req.name.Some? && req.name.value != customer.name {
        customer := customer.(name := req.name.value);
        changes := true;
      }

      if req.email.Some? && req.email.value != customer.email {
        var taken := dao.ExistsPersonWithEmail(req.email.value);
        if taken {
          return Err(DuplicateResource);
        }
        customer := customer.(email := req.email.value);
        changes := true;
      }

      if req.age.Some? && req.age.value != customer.age {
        customer := customer.(age := req.age.value);
        changes := true;
      }

      if !changes {
        return Err(NoCustomerDataEdited);
      }

      assert customer == Edited(stored, req);
      dao.UpdateCustomer(customer);
      r := Ok(());
    }
  }
}
