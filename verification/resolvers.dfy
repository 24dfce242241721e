/** The GraphQL resolvers of the contact API as pure transitions over the store.

    Each mutation takes the current store, its arguments, the configured API
    key (`None` when the environment has none) and the phone authority's
    reply (the HTTP status and decoded body the validation request would have
    produced), and yields either the new store with the resolver's output or
    the error it raises. An error carries no store: a failing resolver never
    writes. `deleteContact` needs neither key nor reply and never fails: it
    yields the new store and whether a record was removed. */
module Resolvers {
  import opened Wrappers
  import opened Contacts

  /** The errors the resolvers raise, one per distinct message, plus
      `NoTimezone`, which the model raises where the source would carry on
      with an undefined timezone. */
  datatype Error =
    | MissingApiKey       // "You need the api key"
    | PhoneAlreadyExists  // "Phone already exists"
    | ApiNinjaError       // "API Ninja Error"
    | NotValid            // "Not valid"
    | NothingToUpdate     // "You must at least update one value"
    | UserNotFound        // "User not found"
    | PhoneAlreadyTaken   // "Phone already taken"
    | NoTimezone          // the authority listed no timezone

  /** The decoded reply of the phone-validation endpoint. */
  datatype PhoneResponse = PhoneResponse(status: int, isValid: bool, country: string, timezones: seq<string>)

  /** A successful mutation: the store after it and the value returned to the caller. */
  datatype Applied<T> = Applied(store: Store, output: T)

  /** The country and timezone a phone-authority reply yields, or the error it
      causes. The `is_valid` test is reproduced as written: a reply that calls
      the number valid is refused with "Not valid", and only a reply with
      `is_valid` false lets the mutation proceed. */
  function ValidatePhone(resp: PhoneResponse): (r: Result<(string, string), Error>)
    ensures r.Ok? <==> resp.status == 200 && !resp.isValid && |resp.timezones| > 0
    ensures r.Ok? ==> r.value == (resp.country, resp.timezones[0])
    ensures resp.status != 200 ==> r == Err(ApiNinjaError)
    ensures resp.status == 200 && resp.isValid ==> r == Err(NotValid)
  {
    if resp.status != 200 then Err(ApiNinjaError)
    else if resp.isValid then Err(NotValid)
    else if |resp.timezones| == 0 then Err(NoTimezone)
    else Ok((resp.country, resp.timezones[0]))
  }

  /** `getContact`: the contact stored under `id`, or nothing. */
  function GetContact(store: Store, id: Id): (r: Option<Contact>)
    ensures r.Some? <==> id in store
    ensures r.Some? ==> r.value == store[id]
  {
    if id in store then Some(store[id]) else None
  }

  /** `getContacts`: every stored contact exactly once, in no particular order. */
  method GetContacts(store: Store) returns (rs: seq<Record>)
    ensures |rs| == |store|
    ensures forall i :: 0 <= i < |rs| ==> rs[i].id in store && store[rs[i].id] == rs[i].contact
    ensures forall i, j :: 0 <= i < j < |rs| ==> rs[i].id != rs[j].id
    ensures forall id :: id in store ==> exists i :: 0 <= i < |rs| && rs[i].id == id
  {
    rs := [];
    var left := store.Keys;
    while left != {}
      invariant left <= store.Keys
      invariant |rs| + |left| == |store|
      invariant forall i :: 0 <= i < |rs| ==> rs[i].id in store && rs[i].id !in left && store[rs[i].id] == rs[i].contact
      invariant forall i, j :: 0 <= i < j < |rs| ==> rs[i].id != rs[j].id
      invariant forall id :: id in store && id !in left ==> exists i :: 0 <= i < |rs| && rs[i].id == id
      decreases left
    {
      var k :| k in left;
      var rs' := rs + [Record(k, store[k])];
      forall id | id in store && id !in left - {k}
        ensures exists i :: 0 <= i < |rs'| && rs'[i].id == id
      {
        if id == k {
          assert rs'[|rs|].id == id;
        } else {
          var i :| 0 <= i < |rs| && rs[i].id == id;
          assert rs'[i].id == id;
        }
      }
      rs := rs';
      left := left - {k};
    }
  }

  /** `deleteContact`: removes the contact stored under `id`; the boolean says
      whether a record was removed. */
  function DeleteContact(store: Store, id: Id): (r: Applied<bool>)
    ensures r.output <==> id in store
    ensures r.store.Keys == store.Keys - {id}
    ensures forall k :: k in r.store ==> r.store[k] == store[k]
  {
    Applied(store - {id}, id in store)
  }

  /** `addContact`: refuses without an API key, refuses a phone already in the
      store, asks the phone authority, and inserts the new contact under the
      identifier the store hands out. */
  function AddContact(store: Store, name: string, phone: string, key: Option<string>,
                      resp: PhoneResponse, newId: Id): (r: Result<Applied<Record>, Error>)
    requires newId !in store
    ensures r.Ok? <==> Truthy(key) && !PhoneHeld(store, phone) && resp.status == 200
                       && !resp.isValid && |resp.timezones| > 0
    ensures r.Ok? ==> r.value.output == Record(newId, Contact(name, phone, resp.country, resp.timezones[0]))
    ensures r.Ok? ==> r.value.store == store[newId := r.value.output.contact]
  {
    if !Truthy(key) then Err(MissingApiKey)
    else if CountByPhone(store, phone) >= 1 then Err(PhoneAlreadyExists)
    else match ValidatePhone(resp)
      case Err(e) => Err(e)
      case Ok((country, timezone)) =>
        var c := Contact(name, phone, country, timezone);
        Ok(Applied(store[newId := c], Record(newId, c)))
  }

  /** `updateContact`: refuses without an API key, then without anything to
      change; a name-only change renames the target; a phone held by another
      contact is refused; a phone the target already holds only renames it
      (keeping the stored name when none is given); any other phone is
      validated and replaces phone, country and timezone together. */
  function UpdateContact(store: Store, id: Id, name: Option<string>, phone: Option<string>,
                         key: Option<string>, resp: PhoneResponse): (r: Result<Applied<Record>, Error>)
    ensures r.Ok? ==> id in store && r.value.output.id == id
    ensures r.Ok? ==> r.value.store == store[id := r.value.output.contact]
    ensures r.Ok? && Truthy(name) ==> r.value.output.contact.name == name.value
    ensures r.Ok? && !Truthy(name) ==> r.value.output.contact.name == store[id].name
    ensures r.Ok? && Truthy(phone) ==> r.value.output.contact.phone == phone.value
    ensures r.Ok? && !Truthy(phone) ==> r.value.output.contact.phone == store[id].phone
  {
    if !Truthy(key) then Err(MissingApiKey)
    else if !Truthy(phone) && !Truthy(name) then Err(NothingToUpdate)
    else if !Truthy(phone) then
      if id !in store then Err(UserNotFound)
      else
        var c := store[id].(name := name.value);
        Ok(Applied(store[id := c], Record(id, c)))
    else if HeldByOther(store, id, phone.value) then Err(PhoneAlreadyTaken)
    else if PhoneHeld(store, phone.value) then
      if id !in store then Err(UserNotFound)
      else
        var c := store[id].(name := if Truthy(name) then name.value else store[id].name);
        Ok(Applied(store[id := c], Record(id, c)))
    else match ValidatePhone(resp)
      case Err(e) => Err(e)
      case Ok((country, timezone)) =>
        if id !in store then Err(UserNotFound)
        else
          var newName := if Truthy(name) then name.value else store[id].name;
          var c := Contact(newName, phone.value, country, timezone);
          Ok(Applied(store[id := c], Record(id, c)))
  }
}
