/**
 * The actions of CustomerController that may change the store (PutCustomer,
 * PostCustomer, DeleteCustomer), each as a transition from the store before
 * the call to the response and the store after it; a dispatcher over all five
 * actions; sequences of calls; and lemmas relating several calls.
 *
 * Each action is one atomic step. Saving changes is a map update: the save of
 * a Modified entry (PutCustomer) fails exactly when no record has its key,
 * which is when the in-memory store raises its concurrency exception.
 */
module CustomerActions {
  import opened Customers

  /** The response of one action and the store it leaves behind. */
  datatype Step = Step(response: Response, store: map<int, Customer>)

  /**
   * Saving a record whose entry was marked Modified: the record stored under
   * c.ID is replaced by c. When no record has that key the save fails (None,
   * the concurrency exception) and nothing is written.
   */
  function SaveModified(m: map<int, Customer>, c: Customer): (r: Option<map<int, Customer>>)
    ensures r.Some? <==> c.ID in m
    ensures r.Some? ==> r.value.Keys == m.Keys && r.value[c.ID] == c
    ensures r.Some? ==> forall k :: k in m && k != c.ID ==> r.value[k] == m[k]
  {
    if c.ID in m then Some(m[c.ID := c]) else None
  }

  /**
   * PutCustomer: BadRequest when validation failed or the body's ID is not
   * the route id; otherwise the stored record is replaced (NoContent), or, when
   * the save fails and no record has the id, NotFound. The rethrow that
   * follows a failed save of an existing record cannot happen here: a save
   * fails only when the record is absent.
   */
  function PutCustomer(valid: bool, m: map<int, Customer>, id: int, c: Customer): (s: Step)
    requires KeyedById(m)
    ensures KeyedById(s.store)
    ensures s.response.BadRequest? <==> !valid || id != c.ID
    ensures s.response.NotFound? <==> valid && id == c.ID && !CustomerExists(m, id)
    ensures s.response.NoContent? <==> valid && id == c.ID && CustomerExists(m, id)
    ensures !s.response.Rethrown?
    ensures s.response.NoContent? ==> Find(s.store, id) == Some(c)
    ensures forall k :: k != id ==> Find(s.store, k) == Find(m, k)
    ensures !s.response.NoContent? ==> s.store == m
    ensures s.store.Keys == m.Keys && |s.store| == |m|
  {
    if !valid then Step(BadRequest, m)
    else if id != c.ID then Step(BadRequest, m)
    else
      match SaveModified(m, c)
      case Some(saved) => Step(NoContent, saved)
      case None =>
        if !CustomerExists(m, id) then Step(NotFound, m)
        else Step(Rethrown, m)
  }

  /**
   * PostCustomer: BadRequest when validation failed; otherwise the record is
   * added under the key the store generates for it (key, which no stored
   * record uses) and Created carries that key and the stored record.
   */
  function PostCustomer(valid: bool, m: map<int, Customer>, c: Customer, key: int): (s: Step)
    requires KeyedById(m)
    requires key !in m
    ensures KeyedById(s.store)
    ensures s.response.BadRequest? <==> !valid
    ensures !valid ==> s.store == m
    ensures valid ==> s.response.Created? && s.response.id == key
    ensures s.response.Created? ==>
      && s.response.customer.ID == s.response.id
      && s.response.customer.FirstName == c.FirstName
      && s.response.customer.LastName == c.LastName
      && Find(s.store, s.response.id) == Some(s.response.customer)
    ensures forall k :: k != key ==> Find(s.store, k) == Find(m, k)
    ensures valid ==> s.store.Keys == m.Keys + {key} && |s.store| == |m| + 1
  {
    if !valid then Step(BadRequest, m)
    else
      var stored := c.(ID := key);
      Step(Created(stored.ID, stored), m[stored.ID := stored])
  }

  /**
   * DeleteCustomer: BadRequest when validation failed; NotFound when no record
   * has the id; otherwise that record is removed and returned with Ok.
   */
  function DeleteCustomer(valid: bool, m: map<int, Customer>, id: int): (s: Step)
    requires KeyedById(m)
    ensures KeyedById(s.store)
    ensures s.response.BadRequest? <==> !valid
    ensures s.response.NotFound? <==> valid && !CustomerExists(m, id)
    ensures s.response.Ok? <==> valid && CustomerExists(m, id)
    ensures s.response.Ok? ==> s.response.customer.ID == id && s.response.customer in m.Values
    ensures s.response.Ok? ==> !CustomerExists(s.store, id) && s.store.Keys == m.Keys - {id}
    ensures s.response.Ok? ==> |s.store| == |m| - 1
    ensures forall k :: k != id ==> Find(s.store, k) == Find(m, k)
    ensures !s.response.Ok? ==> s.store == m
  {
    if !valid then Step(BadRequest, m)
    else
      match Find(m, id)
      case None => Step(NotFound, m)
      case Some(c) => Step(Ok(c), m - {c.ID})
  }

  /** A request to the controller: one of its five actions with its arguments. */
  datatype Action =
    | ListAll
    | GetOne(id: int)
    | Update(id: int, customer: Customer)
    | Create(customer: Customer)
    | Remove(id: int)

  /** How one response changes the number of stored records. */
  function Delta(a: Action, r: Response): int
  {
    if r.Created? then 1
    else if a.Remove? && r.Ok? then -1
    else 0
  }

  /**
   * One call of the controller. key is the value the store's key generator
   * would hand out, used only by a Create.
   */
  function Handle(valid: bool, m: map<int, Customer>, a: Action, key: int): (s: Step)
    requires KeyedById(m)
    requires key !in m
    ensures KeyedById(s.store)
    ensures !valid && !a.ListAll? ==> s.response == BadRequest && s.store == m
    ensures a.ListAll? || a.GetOne? ==> s.store == m
    ensures a.ListAll? ==> s.response.Listed? && |s.response.customers| == |m|
    ensures |s.store| == |m| + Delta(a, s.response)
  {
    match a
    case ListAll => Step(Listed(GetCustomers(m)), m)
    case GetOne(id) => Step(GetCustomer(valid, m, id), m)
    case Update(id, c) => PutCustomer(valid, m, id, c)
    case Create(c) => PostCustomer(valid, m, c, key)
    case Remove(id) => DeleteCustomer(valid, m, id)
  }

  /** A non-empty set has a member. */
  lemma NonEmptyHasMember(s: set<int>)
    requires s != {}
    ensures exists x :: x in s
  {
    if forall x :: x !in s {
      assert false;
    }
  }

  /** A strict upper bound of a finite set of keys. */
  ghost function Bound(s: set<int>): (b: int)
    ensures forall x :: x in s ==> x < b
    decreases s
  {
    if s == {} then 0
    else
      NonEmptyHasMember(s);
      var y :| y in s;
      var b := Bound(s - {y});
      assert forall x :: x in s ==> x == y || x in s - {y};
      if b > y then b else y + 1
  }

  /**
   * Some key that no stored record uses, as a key generator would pick. It is
   * positive: a generated int key never takes the unset value 0.
   */
  ghost function FreshKey(m: map<int, Customer>): (k: int)
    ensures k !in m && k > 0
  {
    var b := Bound(m.Keys);
    if b > 0 then b else 1
  }

  datatype Call = Call(valid: bool, action: Action)

  /** The responses of a sequence of calls and the store they leave behind. */
  datatype Trace = Trace(responses: seq<Response>, store: map<int, Customer>)

  /** Calls handled one after another, each Create getting a fresh key. */
  ghost function Run(m: map<int, Customer>, calls: seq<Call>): (t: Trace)
    requires KeyedById(m)
    ensures KeyedById(t.store)
    ensures |t.responses| == |calls|
    decreases |calls|
  {
    if calls == [] then Trace([], m)
    else
      var s := Handle(calls[0].valid, m, calls[0].action, FreshKey(m));
      var rest := Run(s.store, calls[1..]);
      Trace([s.response] + rest.responses, rest.store)
  }

  /** Successful creates minus successful deletes over a sequence of calls. */
  function CreatesMinusDeletes(calls: seq<Call>, responses: seq<Response>): int
    requires |calls| == |responses|
  {
    if calls == [] then 0
    else Delta(calls[0].action, responses[0]) + CreatesMinusDeletes(calls[1..], responses[1..])
  }

  /**
   * After any sequence of calls, the store holds as many records as it held
   * before, plus the successful creates, minus the successful deletes.
   */
  lemma {:induction false} RunSize(m: map<int, Customer>, calls: seq<Call>)
    requires KeyedById(m)
    ensures |Run(m, calls).store| == |m| + CreatesMinusDeletes(calls, Run(m, calls).responses)
    decreases |calls|
  {
    if calls != [] {
      var s := Handle(calls[0].valid, m, calls[0].action, FreshKey(m));
      var t := Run(m, calls);
      var rest := Run(s.store, calls[1..]);
      RunSize(s.store, calls[1..]);
      assert t.responses[0] == s.response;
      assert t.responses[1..] == rest.responses;
    }
  }

  /** A record created by PostCustomer is what GetCustomer then returns. */
  lemma GetAfterPost(m: map<int, Customer>, c: Customer, key: int)
    requires KeyedById(m)
    requires key !in m
    ensures var s := PostCustomer(true, m, c, key);
      GetCustomer(true, s.store, s.response.id) == Ok(s.response.customer)
  {
  }

  /** After a valid DeleteCustomer, GetCustomer of the same id is NotFound. */
  lemma GetAfterDelete(m: map<int, Customer>, id: int)
    requires KeyedById(m)
    ensures var s := DeleteCustomer(true, m, id);
      GetCustomer(true, s.store, id) == NotFound
  {
  }

  /** After a successful PutCustomer, GetCustomer returns the new body. */
  lemma GetAfterPut(m: map<int, Customer>, id: int, c: Customer)
    requires KeyedById(m)
    ensures var s := PutCustomer(true, m, id, c);
      s.response.NoContent? ==> GetCustomer(true, s.store, id) == Ok(c)
  {
  }

  /** Deleting the record just created gives it back and restores the store. */
  lemma DeleteUndoesPost(m: map<int, Customer>, c: Customer, key: int)
    requires KeyedById(m)
    requires key !in m
    ensures var p := PostCustomer(true, m, c, key);
      var d := DeleteCustomer(true, p.store, p.response.id);
      d.response == Ok(p.response.customer) && d.store == m
  {
  }

  /** Putting the same body twice leaves the store as putting it once. */
  lemma PutIdempotent(valid: bool, m: map<int, Customer>, id: int, c: Customer)
    requires KeyedById(m)
    ensures var s := PutCustomer(valid, m, id, c);
      var s2 := PutCustomer(valid, s.store, id, c);
      s2.store == s.store && s2.response == s.response
  {
  }

  /** A second DeleteCustomer of the same id finds nothing and changes nothing. */
  lemma DeleteTwice(m: map<int, Customer>, id: int)
    requires KeyedById(m)
    ensures var s := DeleteCustomer(true, m, id);
      var s2 := DeleteCustomer(true, s.store, id);
      s2.response == NotFound && s2.store == s.store
  {
  }
}
