# Customer REST controller, modelled in Dafny

This project models `CustomerController`, the scaffolded ASP.NET Core controller
of the RestApi sample. The controller serves the `api/Customer` resource over
the `Customers` set of an Entity Framework context. It offers five actions:

- `GetCustomers` lists every stored customer.
- `GetCustomer(id)` returns the customer with that ID, or NotFound.
- `PutCustomer(id, customer)` replaces a stored customer.
- `PostCustomer(customer)` adds a customer and answers Created with its ID.
- `DeleteCustomer(id)` removes a customer and returns it.

Every action except `GetCustomers` first answers BadRequest when model
validation failed.

The model has three modules:

- `Customers` (`customers.dfy`) holds the `Customer` record and the `Response`
  outcomes. It also holds the store invariant `KeyedById`: the store is a
  `map<int, Customer>`, and every record sits under its own ID. The read-only
  queries live here as functions over the store: `GetCustomers`,
  `GetCustomer`, `CustomerExists`, and the lookup `Find` behind
  `SingleOrDefault`.
- `CustomerActions` (`actions.dfy`) gives each mutating action as a pure
  transition. A transition maps the store before the call to a `Step`: the
  response plus the store after the call. The module also has a dispatcher
  `Handle` over all five actions and `Run`, which runs a sequence of calls. Its
  lemmas relate several calls.
- `CustomerControllers` (`controller.dfy`) holds the class
  `CustomerController`. Its field `customers` is updated in place by
  `PutCustomer`, `PostCustomer` and `DeleteCustomer`. Each method is proved
  to return exactly the response and leave exactly the store that the matching
  transition prescribes.

Modelling choices:

- `ModelState.IsValid` is a boolean parameter (`valid`, `modelValid`). The
  validation attributes of `Customer` live in `RestApi.Shared`, which is not
  part of this model.
- Saving changes is a map update, and each action is one atomic step.
- `PutCustomer` marks the body's entry as Modified and saves it. That save
  (`SaveModified`) fails exactly when no record has the body's key. This is the
  case in which the in-memory store raises `DbUpdateConcurrencyException`.
  The failure then leads to NotFound.
- The rethrow in `PutCustomer` is kept as the opaque outcome `Rethrown`. The
  contract of `CustomerActions.PutCustomer` proves that it is unreachable when
  calls run one at a time.
- The key that `PostCustomer` stores under comes from the store's key
  generator, which is not visible here. It is a parameter `key`, and the only
  assumption about it is that no stored record uses it. The stored record is
  the body with its `ID` set to `key`. `Run` draws such a key from `FreshKey`,
  which is positive, as a generated int key never takes the unset value 0.
- There is no 409 Conflict outcome: a failed concurrent update is rethrown
  (`CustomerController.cs:78`).
- `PostCustomer` checks only `ModelState`. It does not check the name fields
  itself.
- `GetCustomers` does not consult `ModelState`.

## Model

| member | source | states |
|---|---|---|
| `Customers.CustomerExists` | samples/RestApi/RestApi.Server/Controllers/CustomerController.cs:121-124 | true exactly when some stored record has the ID; in a keyed store, exactly when the ID is a key |
| `Customers.Find` | samples/RestApi/RestApi.Server/Controllers/CustomerController.cs:40 | `SingleOrDefault` by ID: a record exactly when one exists, and then the unique stored record with that ID |
| `Customers.ValuesCount` | samples/RestApi/RestApi.Server/Controllers/CustomerController.cs:28 | a keyed store holds as many distinct records as it has keys |
| `Customers.GetCustomers` | samples/RestApi/RestApi.Server/Controllers/CustomerController.cs:26-29 | exactly the stored records, each once; as many as the store holds |
| `Customers.GetCustomer` | samples/RestApi/RestApi.Server/Controllers/CustomerController.cs:33-48 | BadRequest iff validation failed; otherwise NotFound iff no record has the id, else Ok with the stored record whose ID is id |
| `CustomerActions.SaveModified` | samples/RestApi/RestApi.Server/Controllers/CustomerController.cs:64-68 | saving a Modified entry succeeds iff its key is stored, and then replaces that record only |
| `CustomerActions.PutCustomer` | samples/RestApi/RestApi.Server/Controllers/CustomerController.cs:52-83 | BadRequest iff validation failed or ids differ; NotFound iff ids match and no record exists; NoContent iff it exists, and then the record is the body; never Rethrown; other ids untouched; store unchanged unless NoContent |
| `CustomerActions.PostCustomer` | samples/RestApi/RestApi.Server/Controllers/CustomerController.cs:87-98 | BadRequest iff validation failed, store unchanged; otherwise Created with the generated key and the stored record (the body's names under that key), one record added, all others kept |
| `CustomerActions.DeleteCustomer` | samples/RestApi/RestApi.Server/Controllers/CustomerController.cs:102-119 | BadRequest iff validation failed; NotFound iff no record has the id; otherwise Ok with that record, which is removed and no longer exists; other ids untouched; store unchanged unless Ok |
| `CustomerActions.Handle` | samples/RestApi/RestApi.Server/Controllers/CustomerController.cs:26-119 | every action except the listing answers BadRequest and leaves the store unchanged when validation failed; the queries never change the store; the store size changes by +1 on Created, -1 on a delete's Ok, else 0 |
| `CustomerActions.FreshKey` | samples/RestApi/RestApi.Server/Controllers/CustomerController.cs:94-95 | the generated key is positive and not used by any stored record |
| `CustomerActions.Run` | samples/RestApi/RestApi.Server/Controllers/CustomerController.cs:26-119 | calls handled one after another keep the store keyed by ID and yield one response per call |
| `CustomerActions.RunSize` | samples/RestApi/RestApi.Server/Controllers/CustomerController.cs:87-119 | after any sequence of calls the store size is the initial size plus successful creates minus successful deletes |
| `CustomerActions.GetAfterPost` | samples/RestApi/RestApi.Server/Controllers/CustomerController.cs:94-97 | GetCustomer of the ID that Created reports returns the created record |
| `CustomerActions.GetAfterDelete` | samples/RestApi/RestApi.Server/Controllers/CustomerController.cs:109-118 | after a valid delete, GetCustomer of that id is NotFound |
| `CustomerActions.GetAfterPut` | samples/RestApi/RestApi.Server/Controllers/CustomerController.cs:64-82 | after a NoContent put, GetCustomer of that id returns the body |
| `CustomerActions.DeleteUndoesPost` | samples/RestApi/RestApi.Server/Controllers/CustomerController.cs:87-118 | deleting the record just created returns it and restores the store |
| `CustomerActions.PutIdempotent` | samples/RestApi/RestApi.Server/Controllers/CustomerController.cs:52-83 | a second identical put gives the same response and the same store |
| `CustomerActions.DeleteTwice` | samples/RestApi/RestApi.Server/Controllers/CustomerController.cs:109-113 | a second delete of the same id is NotFound and changes nothing |
| `CustomerControllers.CustomerController.constructor` | samples/RestApi/RestApi.Server/Controllers/CustomerController.cs:19-22 | the controller starts on the given keyed store |
| `CustomerControllers.CustomerController.PutCustomer` | samples/RestApi/RestApi.Server/Controllers/CustomerController.cs:52-83 | response and new store are those of `CustomerActions.PutCustomer`; keyed store kept |
| `CustomerControllers.CustomerController.PostCustomer` | samples/RestApi/RestApi.Server/Controllers/CustomerController.cs:87-98 | response and new store are those of `CustomerActions.PostCustomer`; on Created the store gains exactly the created record |
| `CustomerControllers.CustomerController.DeleteCustomer` | samples/RestApi/RestApi.Server/Controllers/CustomerController.cs:102-119 | response and new store are those of `CustomerActions.DeleteCustomer`; on Ok the store loses exactly that id |
| `CustomerControllers.CreateUpdateDelete` | samples/RestApi/RestApi.Server/Controllers/CustomerController.cs:33-118 | create Ada Lovelace, read, rename to King, read, delete, read: Created, Ok, NoContent, Ok, Ok, NotFound with the expected records |

## Left out

- Asynchrony and concurrent requests: each action is one sequential, atomic step. A `DbUpdateConcurrencyException` raised because another request changed the record therefore cannot occur, and the `Rethrown` outcome is never produced.
- Entity Framework internals: change tracking, `SaveChangesAsync` and the in-memory provider. They are abstracted as map updates.
- `CustomerActions.PostCustomer`: the key is always the generated `key`. A non-zero body ID that the store would keep, and the exception from adding a duplicate key, are not modelled.
- `Customers.GetCustomers`: returns the stored records as a set. The order in which the store enumerates them is not modelled.
- `Customers.Find`: `SingleOrDefault` throws when several records share an ID. The store invariant `KeyedById` rules that out, so the exception is not modelled.
- The body of a 400 response: `BadRequest(ModelState)` carries the validation errors and the `BadRequest()` for differing ids carries none; both are the one outcome `BadRequest`.
- The validation attributes of `Customer`: `RestApi.Shared` is not part of this model. Their verdict enters as the `valid` / `modelValid` parameter.
- Routing, attributes, JSON serialisation and the Location header built by `CreatedAtAction`: transport plumbing.
- The other samples (dependency-injection wiring and lifetimes, render-tree building, view/logic separation, static hosting, the simulated data services and the JS-interop string helper): host and UI code, not part of the controller.
