# Customer service and list-backed store

A model of the customer-management backend's business-rule layer
(`CustomerService`) and of its in-memory data-access backend
(`CustomerListDataAccessService`), with proofs of the rules the service
enforces and of what each store operation does to the list.

- `customers.dfy` (module `Customers`): the `Customer` record (`id` is an
  `Option<int>`, absent until storage assigns one), the registration request,
  the edit request with three independently optional fields, and `Outcome`,
  which says whether a store call returned or threw a NullPointerException.
- `list_store.dfy` (module `ListStore`): the class
  `CustomerListDataAccessService` holding the list as a `seq<Customer>` that
  its methods reassign, the functions that specify its queries and its delete
  (`SelectById`, `ExistsId`, `EmailTaken`, `Without`) and lemmas about them.
- `customer_service.dfy` (module `Service`): the error kinds, the partial-edit
  functions `Edited` and `HasChanges`, and the class `CustomerService`, wired
  to a list store. In the model, every failed service call is proved to leave
  the store's list unchanged. This is the model's form of the unit tests'
  "data-access method never called" checks. In Java, a rejected edit can
  still have changed an entry through aliasing (see "## Left out").

Behaviour of the code that the model keeps:

- Ids are compared with `c.getId().equals(id)`. That comparison throws when a
  stored customer has a null id, and `addCustomer` always stores one with a
  null id. The model keeps this. The lookup and the id existence test stop at
  the first entry that matches or has a null id, so they throw only when a
  null id comes before any match. `removeIf` tests every entry before it
  removes any. It throws when any id is null and then leaves the list as it
  was. The service passes this exception on as `NullPointerThrown`.
- The list store's `updateCustomer` appends the customer instead of
  overwriting the entry with that id (`AppendedUpdateDuplicatesEmail`).
- The list store assigns no id on insert.
- `updateCustomer` hands the store the fetched customer with its own id. It
  never uses the `customerId` argument as the id.
- Deleting a missing id raises `NoCustomerException`, not the
  `ResourceNotFound` that a failed lookup raises.
- The email check in an edit asks whether any entry holds the new email, not
  whether a different customer holds it. It runs only when the email actually
  changes.

## Model

| member | source | states |
|---|---|---|
| `ListStore.CustomerListDataAccessService.constructor` | backend/src/main/java/com/springPP/customer/CustomerListDataAccessService.java:14-21 | the store starts with exactly (1, "Alex", "@gmail.com", 25) then (2, "Anakin", "123@gmail.com", 39) |
| `ListStore.InitialStoreLookups` | backend/src/main/java/com/springPP/customer/CustomerListDataAccessService.java:14-21 | the seeded list has all ids present and unique emails; a lookup of 1 or 2 finds the seeded customer and any other id is absent |
| `ListStore.CustomerListDataAccessService.SelectAllCustomers` | backend/src/main/java/com/springPP/customer/CustomerListDataAccessService.java:23-26 | returns the whole list in storage order |
| `ListStore.CustomerListDataAccessService.SelectCustomerById` | backend/src/main/java/com/springPP/customer/CustomerListDataAccessService.java:28-33 | the loop's result is the first-match lookup `SelectById` over the current list |
| `ListStore.SelectByIdSpec` | backend/src/main/java/com/springPP/customer/CustomerListDataAccessService.java:29-33 | the lookup returns the first entry (in list order) whose id matches. It reports absence exactly when every entry has a present, different id. It throws exactly when a null id comes before any match |
| `ListStore.CustomerListDataAccessService.InsertCustomer` | backend/src/main/java/com/springPP/customer/CustomerListDataAccessService.java:35-38 | the customer is appended: the list grows by one and earlier entries are unchanged |
| `ListStore.CustomerListDataAccessService.DeleteCustomerById` | backend/src/main/java/com/springPP/customer/CustomerListDataAccessService.java:40-43 | when every id is present, the list becomes `Without(list, id)`; otherwise it throws and the list is unchanged |
| `ListStore.Without` | backend/src/main/java/com/springPP/customer/CustomerListDataAccessService.java:41-43 | removal keeps exactly the entries whose id differs from `id` and never lengthens the list |
| `ListStore.WithoutAppend` | backend/src/main/java/com/springPP/customer/CustomerListDataAccessService.java:41-43 | removal distributes over concatenation, so the surviving entries keep their relative order |
| `ListStore.WithoutIsNoOpIffNoMatch` | backend/src/main/java/com/springPP/customer/CustomerListDataAccessService.java:41-43 | removal leaves the list unchanged if and only if no entry has that id |
| `ListStore.DeletedIdIsAbsent` | backend/src/main/java/com/springPP/customer/CustomerListDataAccessService.java:41-43 | after removing an id from a list with all ids present, the lookup reports absence and the id existence test is false |
| `ListStore.DeletedEmailIsFree` | backend/src/main/java/com/springPP/customer/CustomerListDataAccessService.java:51-54 | in a list of unique emails, once a customer is removed by its id, the email test for that customer's email is false |
| `ListStore.WithoutIsIdempotent` | backend/src/main/java/com/springPP/customer/CustomerListDataAccessService.java:41-43 | removing the same id a second time leaves the list unchanged |
| `ListStore.CustomerListDataAccessService.UpdateCustomer` | backend/src/main/java/com/springPP/customer/CustomerListDataAccessService.java:45-48 | the updated customer is appended and no existing entry is replaced or changed |
| `ListStore.CustomerListDataAccessService.ExistsPersonWithEmail` | backend/src/main/java/com/springPP/customer/CustomerListDataAccessService.java:50-54 | true if and only if some stored entry's email equals the given email exactly |
| `ListStore.CustomerListDataAccessService.ExistsCustomerWithId` | backend/src/main/java/com/springPP/customer/CustomerListDataAccessService.java:56-60 | the loop's result is the short-circuiting id test `ExistsId` over the current list |
| `ListStore.ExistsIdAgreesWithSelect` | backend/src/main/java/com/springPP/customer/CustomerListDataAccessService.java:57-60 | the id existence test is true exactly when the lookup finds a customer, false exactly when it reports absence, and throws exactly when the lookup throws |
| `ListStore.AppendFreshEmailKeepsUnique` | backend/src/main/java/com/springPP/customer/CustomerService.java:32-43 | inserting a customer whose email is not yet taken keeps the emails unique, and that email is then taken |
| `Service.CustomerService.constructor` | backend/src/main/java/com/springPP/customer/CustomerService.java:17-19 | the service delegates to the data-access object it is given |
| `Service.CustomerService.GetAllCustomers` | backend/src/main/java/com/springPP/customer/CustomerService.java:21-23 | returns the store's list as it is |
| `Service.CustomerService.GetCustomer` | backend/src/main/java/com/springPP/customer/CustomerService.java:25-30 | returns exactly the customer the lookup finds; fails with ResourceNotFound when the lookup is empty; lets the store's null-id exception through |
| `Service.CustomerService.AddCustomer` | backend/src/main/java/com/springPP/customer/CustomerService.java:32-43 | a taken email fails with DuplicateResource and leaves the store unchanged. Otherwise exactly one customer is appended, with no id and the request's name, email and age |
| `Service.CustomerService.DeleteCustomerById` | backend/src/main/java/com/springPP/customer/CustomerService.java:45-50 | a missing id fails with NoCustomerException and deletes nothing. An existing id removes every entry with that id, or throws with the store unchanged when some stored id is null |
| `Service.Edited` | backend/src/main/java/com/springPP/customer/CustomerService.java:57-75 | each of name, email and age takes the request's value when one is supplied and keeps the stored value otherwise; the id is never changed |
| `Service.HasChanges` | backend/src/main/java/com/springPP/customer/CustomerService.java:55-79 | some supplied field differs from the stored one exactly when applying the edit changes the customer |
| `Service.EditIsIdempotent` | backend/src/main/java/com/springPP/customer/CustomerService.java:57-79 | applying an edit twice equals applying it once, and the repeated edit has no changes |
| `Service.EchoedRequestHasNoChanges` | backend/src/main/java/com/springPP/customer/CustomerService.java:77-79 | a request that repeats every stored value, or supplies none, has no changes |
| `Service.CustomerService.UpdateCustomer` | backend/src/main/java/com/springPP/customer/CustomerService.java:52-82 | a missing id fails with ResourceNotFound before any field is examined. A changing email that is already taken fails with DuplicateResource, whatever else changes. An edit with no changes fails with NoCustomerDataEdited. In the model, all failures leave the store's list unchanged (Java's aliasing is under Left out). Otherwise the edited customer, with its own id, is passed to the store's update |
| `Service.AppendedUpdateDuplicatesEmail` | backend/src/main/java/com/springPP/customer/CustomerListDataAccessService.java:46-48 | because the list store appends on update, an accepted edit that keeps the email leaves two entries with that email in the list |

## Left out

- The JDBC and JPA data-access backends: their meaning lies in SQL and in a database that is not part of this model. The Java service is wired to the JDBC backend by a qualifier. Here it is wired to the list backend, which implements the same seven operations.
- Application startup and its randomly generated seed data: startup code and randomness.
- Exception messages and HTTP status codes: each exception is a variant of `Error`, with no message text.
- Concurrency: the list is shared through an unsynchronised static field, and both `addCustomer` and `updateCustomer` check and then write without a lock. The model has one sequential caller, and each store instance owns its own list.
- Object aliasing: `Customer` is a value. In Java, `selectCustomerById` returns the list's own object, and the service's setters change that entry in place. On an accepted edit, the model keeps the old entry's old values and gives the edit only to the appended copy. Java puts the same object in the list twice, so both entries show the edit and the email repeats even when it changed. `AppendedUpdateDuplicatesEmail` covers only an edit that keeps the email. Reads after an accepted edit therefore differ: in the model, the lookup's first match is still the old entry, so on the seeded list `UpdateCustomer(1, {name: "Bob"})` returns `Ok` and a later `GetCustomer(1)` still returns (1, "Alex", "@gmail.com", 25), while Java's list store returns the renamed object. On a rejected edit, the model leaves the list unchanged. In Java, a name already set at CustomerService.java:58 stays in the list's entry when the duplicate-email check at CustomerService.java:63-66 then throws. For example, on the seeded list, `updateCustomer(1, {name: "Bob", email: "123@gmail.com"})` fails with DuplicateResource but leaves entry 1 named "Bob".
- Null values other than ids: names, emails, registration fields and the `customerId` argument are never null here. An absent edit field is `None`. So `existsPersonWithEmail` cannot throw in the model.
- Integer width: ids and ages are unbounded integers. The source's `Integer` comparisons do not overflow, so nothing depends on the width.
- GetAllCustomers: returns the list's value, while Java hands the caller the live list, which later calls can still change.
