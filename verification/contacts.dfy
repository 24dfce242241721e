/** The contact data model: the records of the `contacts` collection and the
    queries the resolvers make of it (does a phone exist, who holds it, how many
    hold it), together with the uniqueness invariant the resolvers guard. */
module Contacts {
  import opened Wrappers

  /** The store's opaque document identifier. The database generates it; the
      model only needs equality and a supply of fresh values. */
  type Id = nat

  /** A stored contact without its identifier. */
  datatype Contact = Contact(name: string, phone: string, country: string, timezone: string)

  /** A contact as the API returns it: the identifier plus the stored fields. */
  datatype Record = Record(id: Id, contact: Contact)

  /** The contact collection, keyed by identifier. */
  type Store = map<Id, Contact>

  /** JavaScript truthiness of an optional string: absent and "" are both falsy. */
  predicate Truthy(s: Option<string>) {
    s.Some? && s.value != ""
  }

  /** Some stored contact has exactly this phone. */
  predicate PhoneHeld(store: Store, phone: string) {
    exists k :: k in store && store[k].phone == phone
  }

  /** Some contact other than `id` has exactly this phone. */
  predicate HeldByOther(store: Store, id: Id, phone: string) {
    exists k :: k in store && k != id && store[k].phone == phone
  }

  /** No two stored contacts share a phone. */
  predicate PhonesUnique(store: Store) {
    forall i, j :: i in store && j in store && store[i].phone == store[j].phone ==> i == j
  }

  /** The identifiers of the contacts holding `phone`. */
  function Holders(store: Store, phone: string): set<Id> {
    set k | k in store && store[k].phone == phone
  }

  /** Helper: the holders are exactly the stored contacts with that phone. */
  lemma HoldersMembership(store: Store, phone: string, k: Id)
    ensures k in Holders(store, phone) <==> k in store && store[k].phone == phone
  {
  }

  /** Helper: nobody holds the phone exactly when it is not held. */
  lemma HoldersEmptyIffNotHeld(store: Store, phone: string)
    ensures Holders(store, phone) == {} <==> !PhoneHeld(store, phone)
  {
    if PhoneHeld(store, phone) {
      var k :| k in store && store[k].phone == phone;
      HoldersMembership(store, phone, k);
    }
  }

  /** Helper: under the uniqueness invariant a phone has at most one holder. */
  lemma HoldersOfUniqueStore(store: Store, phone: string)
    ensures PhonesUnique(store) ==> |Holders(store, phone)| <= 1
  {
    var hs := Holders(store, phone);
    if PhonesUnique(store) && hs != {} {
      var k :| k in hs;
      assert hs == {k};
    }
  }

  /** The number of contacts whose phone equals `phone`, as the store's
      document count for the filter `{phone}` reports it: positive exactly
      when some contact holds the phone, and at most one while phones are
      unique. */
  function CountByPhone(store: Store, phone: string): (r: nat)
    ensures r >= 1 <==> PhoneHeld(store, phone)
    ensures PhonesUnique(store) ==> r <= 1
  {
    HoldersEmptyIffNotHeld(store, phone);
    HoldersOfUniqueStore(store, phone);
    |Holders(store, phone)|
  }

  /** A phone held by someone, but by nobody other than `id`, is held by `id`. */
  lemma HeldNotByOtherIsOwn(store: Store, id: Id, phone: string)
    requires PhoneHeld(store, phone) && !HeldByOther(store, id, phone)
    ensures id in store && store[id].phone == phone
  {
    var k :| k in store && store[k].phone == phone;
    assert k == id;
  }
}
