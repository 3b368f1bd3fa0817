/**
 * CustomerController as an object: the Customers store is a field that the
 * mutating actions update in place, each after its early-return guards. Every
 * method is proved to produce exactly the response and the new store that the
 * matching transition of CustomerActions prescribes; the read-only actions
 * (GetCustomers, GetCustomer, CustomerExists) are the functions of Customers
 * applied to the field.
 */
module CustomerControllers {
  import opened Customers
  import CustomerActions

  class CustomerController {
    /** The Customers set of the controller's context, keyed by ID. */
    var customers: map<int, Customer>

    ghost predicate Valid()
      reads this
    {
      KeyedById(customers)
    }

    /** The controller receives its context, and with it the store. */
    constructor (store: map<int, Customer>)
      requires KeyedById(store)
      ensures Valid() && customers == store
    {
      customers := store;
    }

    /** PUT api/Customer/{id}. */
    method PutCustomer(modelValid: bool, id: int, customer: Customer) returns (r: Response)
      requires Valid()
      modifies this
      ensures Valid()
      ensures CustomerActions.Step(r, customers)
           == CustomerActions.PutCustomer(modelValid, old(customers), id, customer)
      ensures r.BadRequest? || r.NotFound? ==> customers == old(customers)
    {
      if !modelValid {
        return BadRequest;
      }
      if id != customer.ID {
        return BadRequest;
      }
      var saved := CustomerActions.SaveModified(customers, customer);
      if saved.None? {
        r := if !CustomerExists(customers, id) then NotFound else Rethrown;
        return;
      }
      customers := saved.value;
      r := NoContent;
    }

    /**
     * POST api/Customer. key is the value the store's key generator assigns
     * to the new record; it is not in use.
     */
    method PostCustomer(modelValid: bool, customer: Customer, key: int) returns (r: Response)
      requires Valid()
      requires key !in customers
      modifies this
      ensures Valid()
      ensures CustomerActions.Step(r, customers)
           == CustomerActions.PostCustomer(modelValid, old(customers), customer, key)
      ensures r.Created? ==> customers == old(customers)[r.id := r.customer]
    {
      if !modelValid {
        return BadRequest;
      }
      var stored := customer.(ID := key);
      customers := customers[stored.ID := stored];
      r := Created(stored.ID, stored);
    }

    /** DELETE api/Customer/{id}. */
    method DeleteCustomer(modelValid: bool, id: int) returns (r: Response)
      requires Valid()
      modifies this
      ensures Valid()
      ensures CustomerActions.Step(r, customers)
           == CustomerActions.DeleteCustomer(modelValid, old(customers), id)
      ensures r.Ok? ==> customers == old(customers) - {id}
    {
      if !modelValid {
        return BadRequest;
      }
      var found := Find(customers, id);
      if found.None? {
        return NotFound;
      }
      var customer := found.value;
      customers := customers - {customer.ID};
      r := Ok(customer);
    }
  }

  /**
   * Create a customer, read it, rename it, delete it and read it again, on a
   * fresh controller whose key generator hands out 1.
   */
  method CreateUpdateDelete()
    returns (created: Response, read: Response, updated: Response, reread: Response,
             deleted: Response, gone: Response)
    ensures created == Created(1, Customer(1, "Ada", "Lovelace"))
    ensures read == Ok(Customer(1, "Ada", "Lovelace"))
    ensures updated == NoContent
    ensures reread == Ok(Customer(1, "Ada", "King"))
    ensures deleted == Ok(Customer(1, "Ada", "King"))
    ensures gone == NotFound
  {
    var controller := new CustomerController(map[]);
    created := controller.PostCustomer(true, Customer(0, "Ada", "Lovelace"), 1);
    read := GetCustomer(true, controller.customers, 1);
    updated := controller.PutCustomer(true, 1, Customer(1, "Ada", "King"));
    reread := GetCustomer(true, controller.customers, 1);
    deleted := controller.DeleteCustomer(true, 1);
    gone := GetCustomer(true, controller.customers, 1);
  }
}
