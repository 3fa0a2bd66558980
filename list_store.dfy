/** The in-memory backend of the data-access contract: a list of customers that
    queries scan in order and that its methods replace with a new list. */
module ListStore {
  import opened Customers

  /** The two customers the list holds when the store is first loaded. */
  const InitialCustomers: seq<Customer> :=
    [Customer(Some(1), "Alex", "@gmail.com", 25), Customer(Some(2), "Anakin", "123@gmail.com", 39)]

  /** A scan for `id` steps over entry `j` only when its id is present and differs. */
  predicate PassedOver(s: seq<Customer>, id: int, k: nat)
    requires k <= |s|
  {
    forall j :: 0 <= j < k ==> s[j].id.Some? && s[j].id.value != id
  }

  /** Every entry carries an id, so no id comparison can throw. */
  predicate AllIdsPresent(s: seq<Customer>)
  {
    forall k :: 0 <= k < |s| ==> s[k].id.Some?
  }

  /** Some entry's email equals `email` exactly. */
  predicate EmailTaken(s: seq<Customer>, email: string)
  {
    exists k :: 0 <= k < |s| && s[k].email == email
  }

  /** No two entries share an email. */
  predicate UniqueEmails(s: seq<Customer>)
  {
    forall i, j :: 0 <= i < j < |s| ==> s[i].email != s[j].email
  }

  /** The first-match lookup: the stream stops at the first entry whose id is
      null (the comparison throws) or equal to `id`. */
  function SelectById(s: seq<Customer>, id: int): Outcome<Option<Customer>>
  {
    if s == [] then Returned(None)
    else if s[0].id.None? then NullPointer
    else if s[0].id.value == id then Returned(Some(s[0]))
    else SelectById(s[1..], id)
  }

  /** The short-circuiting existence test on ids. */
  function ExistsId(s: seq<Customer>, id: int): Outcome<bool>
  {
    if s == [] then Returned(false)
    else if s[0].id.None? then NullPointer
    else if s[0].id.value == id then Returned(true)
    else ExistsId(s[1..], id)
  }

  /** The list after removing every entry whose id equals `id`. */
  function Without(s: seq<Customer>, id: int): (r: seq<Customer>)
    ensures |r| <= |s|
    ensures forall c :: c in r <==> c in s && c.id != Some(id)
  {
    if s == [] then []
    else if s[0].id == Some(id) then Without(s[1..], id)
    else [s[0]] + Without(s[1..], id)
  }

  /** The lookup finds the first entry with that id, reports absence only when
      every entry has a different id, and throws only at a null id that comes
      before any match. */
  lemma {:induction false} SelectByIdSpec(s: seq<Customer>, id: int)
    ensures match SelectById(s, id)
            case Returned(None) => PassedOver(s, id, |s|)
            case Returned(Some(c)) =>
              exists k :: 0 <= k < |s| && PassedOver(s, id, k) && s[k] == c && c.id == Some(id)
            case NullPointer =>
              exists k :: 0 <= k < |s| && PassedOver(s, id, k) && s[k].id == None
  {
    if s != [] && s[0].id.Some? && s[0].id.value != id {
      SelectByIdSpec(s[1..], id);
      match SelectById(s[1..], id)
      case Returned(None) =>
        assert PassedOver(s, id, |s|) by {
          forall j | 0 <= j < |s| ensures s[j].id.Some? && s[j].id.value != id {
            if j > 0 { assert s[j] == s[1..][j - 1]; }
          }
        }
      case Returned(Some(c)) =>
        var k :| 0 <= k < |s[1..]| && PassedOver(s[1..], id, k) && s[1..][k] == c && c.id == Some(id);
        PassedOverStep(s, id, k);
      case NullPointer =>
        var k :| 0 <= k < |s[1..]| && PassedOver(s[1..], id, k) && s[1..][k].id == None;
        PassedOverStep(s, id, k);
    }
  }

  /** A scan that steps over the head and then over `k` entries of the tail
      steps over `k + 1` entries of the whole list. */
  lemma PassedOverStep(s: seq<Customer>, id: int, k: nat)
    requires 0 < |s| && k < |s| && s[0].id.Some? && s[0].id.value != id
    requires PassedOver(s[1..], id, k)
    ensures PassedOver(s, id, k + 1)
  {
  }

  /** The existence test on ids agrees with the lookup: true exactly when the
      lookup finds a customer, and throwing exactly when the lookup throws. */
  lemma {:induction false} ExistsIdAgreesWithSelect(s: seq<Customer>, id: int)
    ensures ExistsId(s, id) == match SelectById(s, id)
                               case Returned(found) => Returned(found.Some?)
                               case NullPointer => NullPointer
  {
    if s != [] {
      ExistsIdAgreesWithSelect(s[1..], id);
    }
  }

  /** Removal keeps the surviving entries in their original relative order: it
      distributes over concatenation. */
  lemma {:induction false} WithoutAppend(a: seq<Customer>, b: seq<Customer>, id: int)
    ensures Without(a + b, id) == Without(a, id) + Without(b, id)
  {
    if a == [] {
      assert a + b == b;
    } else {
      assert (a + b)[0] == a[0];
      assert (a + b)[1..] == a[1..] + b;
      WithoutAppend(a[1..], b, id);
    }
  }

  /** Removal changes the list exactly when some entry has that id. */
  lemma {:induction false} WithoutIsNoOpIffNoMatch(s: seq<Customer>, id: int)
    ensures Without(s, id) == s <==> forall k :: 0 <= k < |s| ==> s[k].id != Some(id)
  {
    if s != [] {
      WithoutIsNoOpIffNoMatch(s[1..], id);
      if s[0].id != Some(id) {
        assert Without(s, id) == [s[0]] + Without(s[1..], id);
        if Without(s[1..], id) == s[1..] {
          assert Without(s, id) == s;
        } else {
          assert Without(s, id)[1..] == Without(s[1..], id);
        }
        forall k | 1 <= k < |s| ensures s[k] == s[1..][k - 1] { }
      }
    }
  }

  /** Once every entry with `id` is removed from a list whose ids are all
      present, the lookup reports absence and the existence test is false. */
  lemma {:induction false} DeletedIdIsAbsent(s: seq<Customer>, id: int)
    requires AllIdsPresent(s)
    ensures SelectById(Without(s, id), id) == Returned(None)
    ensures ExistsId(Without(s, id), id) == Returned(false)
  {
    if s != [] {
      assert AllIdsPresent(s[1..]) by {
        forall k | 0 <= k < |s[1..]| ensures s[1..][k].id.Some? {
          assert s[1..][k] == s[k + 1];
        }
      }
      DeletedIdIsAbsent(s[1..], id);
      if s[0].id != Some(id) {
        var w := Without(s, id);
        assert w == [s[0]] + Without(s[1..], id);
        assert w[1..] == Without(s[1..], id);
      }
    }
  }

  /** In a list of unique emails, removing the customer at `k` by its id frees
      that customer's email. */
  lemma DeletedEmailIsFree(s: seq<Customer>, k: int, id: int)
    requires 0 <= k < |s| && UniqueEmails(s) && s[k].id == Some(id)
    ensures !EmailTaken(Without(s, id), s[k].email)
  {
    var w := Without(s, id);
    forall j | 0 <= j < |w| ensures w[j].email != s[k].email {
      assert w[j] in w;
      var i :| 0 <= i < |s| && s[i] == w[j];
      assert i != k;
    }
  }

  /** Removing the same id a second time changes nothing. */
  lemma WithoutIsIdempotent(s: seq<Customer>, id: int)
    ensures Without(Without(s, id), id) == Without(s, id)
  {
    var w := Without(s, id);
    WithoutIsNoOpIffNoMatch(w, id);
    forall k | 0 <= k < |w| ensures w[k].id != Some(id) {
      assert w[k] in w;
    }
  }

  /** A customer appended with an email not yet in a list of unique emails
      leaves the emails unique, and its email is then taken. */
  lemma AppendFreshEmailKeepsUnique(s: seq<Customer>, c: Customer)
    requires UniqueEmails(s) && !EmailTaken(s, c.email)
    ensures UniqueEmails(s + [c]) && EmailTaken(s + [c], c.email)
  {
    var t := s + [c];
    assert t[|s|] == c;
    forall i, j | 0 <= i < j < |t| ensures t[i].email != t[j].email {
      if j == |s| {
        assert t[i] == s[i];
      } else {
        assert t[i] == s[i] && t[j] == s[j];
      }
    }
  }

  /** The store's initial contents answer lookups for ids 1 and 2 with the
      seeded customers, and every other id with absence. */
  lemma InitialStoreLookups(id: int)
    ensures AllIdsPresent(InitialCustomers) && UniqueEmails(InitialCustomers)
    ensures SelectById(InitialCustomers, id) ==
            if id == 1 then Returned(Some(Customer(Some(1), "Alex", "@gmail.com", 25)))
            else if id == 2 then Returned(Some(Customer(Some(2), "Anakin", "123@gmail.com", 39)))
            else Returned(None)
  {
    var s := InitialCustomers;
    assert s[1..][1..] == [];
    assert SelectById(s[1..][1..], id) == Returned(None);
    if id != 1 {
      assert SelectById(s, id) == SelectById(s[1..], id);
    }
  }

  /** The list-backed data-access service. Java keeps the list in a static field
      shared by every instance; here each instance owns its list. */
  class CustomerListDataAccessService {
    var customers: seq<Customer>

    /** Loads the two seeded customers, in order. */
    constructor ()
      ensures customers == InitialCustomers
    {
      customers := [];
      customers := customers + [Customer(Some(1), "Alex", "@gmail.com", 25)];
      customers := customers + [Customer(Some(2), "Anakin", "123@gmail.com", 39)];
    }

    /** The whole list, in storage order. */
    method SelectAllCustomers() returns (r: seq<Customer>)
      ensures r == customers
    {
      r := customers;
    }

    method SelectCustomerById(id: int) returns (r: Outcome<Option<Customer>>)
      ensures r == SelectById(customers, id)
    {
      var i := 0;
      while i < |customers|
        invariant 0 <= i <= |customers|
        invariant SelectById(customers[i..], id) == SelectById(customers, id)
      {
        var c := customers[i];
        assert customers[i..][1..] == customers[i + 1..];
        if c.id.None? {
          return NullPointer;
        }
        if c.id.value == id {
          return Returned(Some(c));
        }
        i := i + 1;
      }
      r := Returned(None);
    }

    /** Appends the customer at the end; earlier entries are untouched. */
    method InsertCustomer(c: Customer)
      modifies this
      ensures customers == old(customers) + [c]
    {
      customers := customers + [c];
    }

    /** `removeIf` tests every entry before removing any, so a null id anywhere
        throws and leaves the list as it was. */
    method DeleteCustomerById(id: int) returns (r: Outcome<()>)
      modifies this
      ensures AllIdsPresent(old(customers)) ==>
                r == Returned(()) && customers == Without(old(customers), id)
      ensures !AllIdsPresent(old(customers)) ==>
                r == NullPointer && customers == old(customers)
    {
      var kept := [];
      var i := 0;
      while i < |customers|
        invariant 0 <= i <= |customers|
        invariant customers == old(customers)
        invariant AllIdsPresent(customers[..i])
        invariant kept == Without(customers[..i], id)
      {
        var c := customers[i];
        if c.id.None? {
          return NullPointer;
        }
        assert customers[..i + 1] == customers[..i] + [c];
        WithoutAppend(customers[..i], [c], id);
        if c.id.value != id {
          kept := kept + [c];
        }
        i := i + 1;
      }
      assert customers[..i] == customers;
      customers := kept;
      r := Returned(());
    }

    /** Appends the given customer instead of replacing the entry with its id;
        the old entry stays where it was. */
    method UpdateCustomer(updated: Customer)
      modifies this
      ensures customers == old(customers) + [updated]
    {
      customers := customers + [updated];
    }

    method ExistsPersonWithEmail(email: string) returns (b: bool)
      ensures b <==> EmailTaken(customers, email)
    {
      var i := 0;
      while i < |customers|
        invariant 0 <= i <= |customers|
        invariant forall k :: 0 <= k < i ==> customers[k].email != email
      {
        if customers[i].email == email {
          return true;
        }
        i := i + 1;
      }
      b := false;
    }

    method ExistsCustomerWithId(id: int) returns (r: Outcome<bool>)
      ensures r == ExistsId(customers, id)
    {
      var i := 0;
      while i < |customers|
        invariant 0 <= i <= |customers|
        invariant ExistsId(customers[i..], id) == ExistsId(customers, id)
      {
        var c := customers[i];
        assert customers[i..][1..] == customers[i + 1..];
        if c.id.None? {
          return NullPointer;
        }
        if c.id.value == id {
          return Returned(true);
        }
        i := i + 1;
      }
      r := Returned(false);
    }
  }
}
