/**
 * The customer record, the outcomes a controller action can produce, and the
 * read-only queries of CustomerController over the Customers store.
 *
 * The store (the Customers DbSet of CustomerContext) is a map from primary key
 * to record. Its invariant, KeyedById, says that every record is filed under
 * its own ID, which is what a keyed DbSet guarantees.
 */
module Customers {

  datatype Option<+T> = None | Some(value: T)

  /** A customer record: ID (the primary key), first name and last name. */
  datatype Customer = Customer(ID: int, FirstName: string, LastName: string)

  /**
   * What an action hands back to the transport layer. Listed is the plain
   * enumeration that GetCustomers returns; Ok, Created, NoContent, NotFound and
   * BadRequest are the action results; Rethrown stands for the exception that
   * PutCustomer rethrows and that no action turns into a result.
   */
  datatype Response =
    | Listed(customers: set<Customer>)
    | Ok(customer: Customer)
    | Created(id: int, customer: Customer)
    | NoContent
    | NotFound
    | BadRequest
    | Rethrown

  /** The store invariant: every stored record sits under its own ID. */
  ghost predicate KeyedById(m: map<int, Customer>)
  {
    forall k :: k in m ==> m[k].ID == k
  }

  /** In a keyed store, a stored record is filed under its own ID. */
  lemma StoredUnderOwnId(m: map<int, Customer>, c: Customer)
    requires KeyedById(m)
    requires c in m.Values
    ensures c.ID in m && m[c.ID] == c
  {
    if forall k :: k in m.Keys ==> m[k] != c {
      assert false;
    }
    var k :| k in m.Keys && m[k] == c;
  }

  /** CustomerExists: some stored record has the given ID. */
  function CustomerExists(m: map<int, Customer>, id: int): (b: bool)
    ensures b <==> exists c :: c in m.Values && c.ID == id
    ensures KeyedById(m) ==> (b <==> id in m)
  {
    var b := exists c :: c in m.Values && c.ID == id;
    assert KeyedById(m) ==> (b <==> id in m) by {
      if KeyedById(m) {
        if id in m {
          assert m[id] in m.Values;
        }
        if b {
          var c :| c in m.Values && c.ID == id;
          StoredUnderOwnId(m, c);
        }
      }
    }
    b
  }

  /**
   * The lookup SingleOrDefault(m => m.ID == id): the one stored record whose
   * ID is id, or None when there is none.
   */
  function Find(m: map<int, Customer>, id: int): (r: Option<Customer>)
    requires KeyedById(m)
    ensures r.Some? <==> CustomerExists(m, id)
    ensures r.Some? ==> r.value in m.Values && r.value.ID == id
    ensures forall c :: c in m.Values && c.ID == id ==> r == Some(c)
  {
    if id in m then
      assert forall c :: c in m.Values && c.ID == id ==> c == m[id] by {
        forall c | c in m.Values && c.ID == id {
          StoredUnderOwnId(m, c);
        }
      }
      Some(m[id])
    else
      None
  }

  /** A keyed store holds as many distinct records as it has keys. */
  lemma {:induction false} ValuesCount(m: map<int, Customer>)
    requires KeyedById(m)
    ensures |m.Values| == |m|
  {
    if m.Keys != {} {
      if forall j :: j !in m.Keys {
        assert false;
      }
      var k :| k in m.Keys;
      var rest := m - {k};
      assert KeyedById(rest);
      ValuesCount(rest);
      assert m.Keys == rest.Keys + {k};
      assert m.Values == rest.Values + {m[k]};
      assert m[k] !in rest.Values by {
        if m[k] in rest.Values {
          StoredUnderOwnId(rest, m[k]);
        }
      }
    }
  }

  /** GetCustomers: every stored record, once each, and nothing else. */
  function GetCustomers(m: map<int, Customer>): (r: set<Customer>)
    requires KeyedById(m)
    ensures forall c :: c in r <==> c.ID in m && m[c.ID] == c
    ensures |r| == |m|
  {
    ValuesCount(m);
    assert forall c :: c in m.Values ==> c.ID in m && m[c.ID] == c by {
      forall c | c in m.Values {
        StoredUnderOwnId(m, c);
      }
    }
    m.Values
  }

  /**
   * GetCustomer: BadRequest when model validation failed; otherwise Ok with
   * the stored record whose ID is id, or NotFound when there is none.
   */
  function GetCustomer(valid: bool, m: map<int, Customer>, id: int): (r: Response)
    requires KeyedById(m)
    ensures r.Ok? || r.NotFound? || r.BadRequest?
    ensures r.BadRequest? <==> !valid
    ensures r.NotFound? <==> valid && !CustomerExists(m, id)
    ensures r.Ok? ==> r.customer.ID == id && r.customer in m.Values
  {
    if !valid then BadRequest
    else
      match Find(m, id)
      case None => NotFound
      case Some(c) => Ok(c)
  }
}
