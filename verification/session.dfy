/** Sequences of mutations applied one after another, as a single server
    would handle them without overlap. The store hands out identifiers from
    a counter, so every inserted contact gets one no stored contact has. */
module Session {
  import opened Wrappers
  import opened Contacts
  import opened Resolvers
  import Properties

  /** The collection together with the next identifier the store will assign. */
  datatype Db = Db(store: Store, next: Id)

  /** Every stored identifier was handed out before `next`. */
  predicate Allocated(db: Db) {
    forall k :: k in db.store ==> k < db.next
  }

  /** One mutation request with the API key and authority reply it meets. */
  datatype Op =
    | AddOp(name: string, phone: string, key: Option<string>, resp: PhoneResponse)
    | UpdateOp(id: Id, newName: Option<string>, newPhone: Option<string>, key: Option<string>, resp: PhoneResponse)
    | DeleteOp(id: Id)

  /** The database after one request: the mutation's store when it succeeds,
      the old one when it raises. */
  function Step(db: Db, op: Op): (r: Db)
    requires Allocated(db)
    ensures Allocated(r)
    ensures r.store.Keys <= db.store.Keys + {db.next}
  {
    match op
    case AddOp(name, phone, key, resp) =>
      (match AddContact(db.store, name, phone, key, resp, db.next)
       case Ok(a) => Db(a.store, db.next + 1)
       case Err(_) => db)
    case UpdateOp(id, name, phone, key, resp) =>
      (match UpdateContact(db.store, id, name, phone, key, resp)
       case Ok(a) => Db(a.store, db.next)
       case Err(_) => db)
    case DeleteOp(id) => Db(DeleteContact(db.store, id).store, db.next)
  }

  /** The database after a sequence of requests, in order. */
  function Run(db: Db, ops: seq<Op>): (r: Db)
    requires Allocated(db)
    ensures Allocated(r)
    ensures db.next <= r.next <= db.next + |ops|
    decreases |ops|
  {
    if |ops| == 0 then db else Run(Step(db, ops[0]), ops[1..])
  }

  /** One request keeps phones unique. */
  lemma StepPreservesUnique(db: Db, op: Op)
    requires Allocated(db) && PhonesUnique(db.store)
    ensures PhonesUnique(Step(db, op).store)
  {
    match op
    case AddOp(name, phone, key, resp) =>
      if AddContact(db.store, name, phone, key, resp, db.next).Ok? {
        Properties.AddPreservesUnique(db.store, name, phone, key, resp, db.next);
      }
    case UpdateOp(id, name, phone, key, resp) =>
      if UpdateContact(db.store, id, name, phone, key, resp).Ok? {
        Properties.UpdatePreservesUnique(db.store, id, name, phone, key, resp);
      }
    case DeleteOp(id) =>
      Properties.DeletePreservesUnique(db.store, id);
  }

  /** Across any sequence of requests, no two stored contacts share a phone. */
  lemma {:induction false} RunPreservesUnique(db: Db, ops: seq<Op>)
    requires Allocated(db) && PhonesUnique(db.store)
    ensures PhonesUnique(Run(db, ops).store)
    decreases |ops|
  {
    if |ops| > 0 {
      StepPreservesUnique(db, ops[0]);
      RunPreservesUnique(Step(db, ops[0]), ops[1..]);
    }
  }
}
