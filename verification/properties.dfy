/** Properties of the resolvers: which error each guard raises, what a
    successful mutation may touch, and that every mutation keeps phones
    unique. */
module Properties {
  import opened Wrappers
  import opened Contacts
  import opened Resolvers

  // ---------------------------------------------------------------- addContact

  /** Without an API key `addContact` fails before looking at the store or the
      phone authority: the outcome is the same whatever either holds. */
  lemma AddWithoutKeyFailsFirst(store: Store, name: string, phone: string, key: Option<string>,
                                resp: PhoneResponse, newId: Id)
    requires newId !in store
    requires !Truthy(key)
    ensures AddContact(store, name, phone, key, resp, newId) == Err(MissingApiKey)
  {
  }

  /** A phone some contact already holds is refused, whatever the authority says. */
  lemma AddDuplicatePhoneRefused(store: Store, name: string, phone: string, key: Option<string>,
                                 resp: PhoneResponse, newId: Id)
    requires newId !in store
    requires Truthy(key) && PhoneHeld(store, phone)
    ensures AddContact(store, name, phone, key, resp, newId) == Err(PhoneAlreadyExists)
  {
  }

  /** With a key and a new phone, the authority decides: a non-200 status is an
      upstream error, and a reply that calls the number valid is refused. */
  lemma AddAuthorityOutcomes(store: Store, name: string, phone: string, key: Option<string>,
                             resp: PhoneResponse, newId: Id)
    requires newId !in store
    requires Truthy(key) && !PhoneHeld(store, phone)
    ensures resp.status != 200 ==> AddContact(store, name, phone, key, resp, newId) == Err(ApiNinjaError)
    ensures resp.status == 200 && resp.isValid ==> AddContact(store, name, phone, key, resp, newId) == Err(NotValid)
  {
  }

  /** As written, `addContact` never stores a number the authority calls valid. */
  lemma AddRejectsValidNumbers(store: Store, name: string, phone: string, key: Option<string>,
                               resp: PhoneResponse, newId: Id)
    requires newId !in store
    requires resp.isValid
    ensures AddContact(store, name, phone, key, resp, newId).Err?
  {
  }

  /** A successful add inserts exactly one record, under the fresh identifier,
      leaves every existing record as it was, and the new contact can be read
      back as returned. */
  lemma AddFrame(store: Store, name: string, phone: string, key: Option<string>,
                 resp: PhoneResponse, newId: Id)
    requires newId !in store
    requires AddContact(store, name, phone, key, resp, newId).Ok?
    ensures var a := AddContact(store, name, phone, key, resp, newId).value;
            && a.store.Keys == store.Keys + {newId}
            && |a.store| == |store| + 1
            && (forall k :: k in store ==> a.store[k] == store[k])
            && GetContact(a.store, newId) == Some(a.output.contact)
            && a.output.contact.country == resp.country
  {
  }

  /** A successful add keeps phones unique. */
  lemma AddPreservesUnique(store: Store, name: string, phone: string, key: Option<string>,
                           resp: PhoneResponse, newId: Id)
    requires newId !in store && PhonesUnique(store)
    requires AddContact(store, name, phone, key, resp, newId).Ok?
    ensures PhonesUnique(AddContact(store, name, phone, key, resp, newId).value.store)
  {
  }

  /** Adding the same phone twice: the second add fails with "Phone already
      exists" and the store holds exactly one record with that phone. */
  lemma AddSamePhoneTwice(store: Store, phone: string,
                          name1: string, key1: Option<string>, resp1: PhoneResponse, id1: Id,
                          name2: string, key2: Option<string>, resp2: PhoneResponse, id2: Id)
    requires id1 !in store && id2 !in store && id2 != id1
    requires AddContact(store, name1, phone, key1, resp1, id1).Ok?
    requires Truthy(key2)
    ensures var s := AddContact(store, name1, phone, key1, resp1, id1).value.store;
            && AddContact(s, name2, phone, key2, resp2, id2) == Err(PhoneAlreadyExists)
            && CountByPhone(s, phone) == 1
  {
    var s := AddContact(store, name1, phone, key1, resp1, id1).value.store;
    assert s[id1].phone == phone;
    AddDuplicatePhoneRefused(s, name2, phone, key2, resp2, id2);
    forall k ensures k in Holders(s, phone) <==> k == id1 {
      HoldersMembership(s, phone, k);
    }
    assert Holders(s, phone) == {id1};
  }

  // ------------------------------------------------------------- updateContact

  /** Without an API key every `updateContact` fails first, name-only updates included. */
  lemma UpdateWithoutKeyFailsFirst(store: Store, id: Id, name: Option<string>, phone: Option<string>,
                                   key: Option<string>, resp: PhoneResponse)
    requires !Truthy(key)
    ensures UpdateContact(store, id, name, phone, key, resp) == Err(MissingApiKey)
  {
  }

  /** With neither a name nor a phone there is nothing to update. */
  lemma UpdateNothingRefused(store: Store, id: Id, name: Option<string>, phone: Option<string>,
                             key: Option<string>, resp: PhoneResponse)
    requires Truthy(key) && !Truthy(name) && !Truthy(phone)
    ensures UpdateContact(store, id, name, phone, key, resp) == Err(NothingToUpdate)
  {
  }

  /** A name-only update renames the target and nothing else, without asking
      the authority; an absent target is "User not found". */
  lemma UpdateNameOnly(store: Store, id: Id, name: Option<string>, phone: Option<string>,
                       key: Option<string>, resp1: PhoneResponse, resp2: PhoneResponse)
    requires Truthy(key) && Truthy(name) && !Truthy(phone)
    ensures UpdateContact(store, id, name, phone, key, resp1) == UpdateContact(store, id, name, phone, key, resp2)
    ensures id !in store ==> UpdateContact(store, id, name, phone, key, resp1) == Err(UserNotFound)
    ensures id in store ==>
              var c := store[id];
              UpdateContact(store, id, name, phone, key, resp1)
                == Ok(Applied(store[id := Contact(name.value, c.phone, c.country, c.timezone)],
                              Record(id, Contact(name.value, c.phone, c.country, c.timezone))))
  {
  }

  /** A phone held by a different contact is refused and nothing changes. */
  lemma UpdatePhoneTakenRefused(store: Store, id: Id, name: Option<string>, phone: Option<string>,
                                key: Option<string>, resp: PhoneResponse)
    requires Truthy(key) && Truthy(phone) && HeldByOther(store, id, phone.value)
    ensures UpdateContact(store, id, name, phone, key, resp) == Err(PhoneAlreadyTaken)
  {
  }

  /** Re-sending the target's own phone skips validation and can only rename:
      the given name if there is one, the stored name otherwise. */
  lemma UpdateOwnPhone(store: Store, id: Id, name: Option<string>, phone: Option<string>,
                       key: Option<string>, resp1: PhoneResponse, resp2: PhoneResponse)
    requires Truthy(key) && Truthy(phone)
    requires id in store && store[id].phone == phone.value && !HeldByOther(store, id, phone.value)
    ensures UpdateContact(store, id, name, phone, key, resp1) == UpdateContact(store, id, name, phone, key, resp2)
    ensures var c := store[id];
            var n := if Truthy(name) then name.value else c.name;
            UpdateContact(store, id, name, phone, key, resp1)
              == Ok(Applied(store[id := Contact(n, c.phone, c.country, c.timezone)],
                            Record(id, Contact(n, c.phone, c.country, c.timezone))))
  {
  }

  /** When the phone is held and not by another contact, the holder is the
      target itself, so the own-phone branch's "User not found" never fires. */
  lemma UpdateOwnPhoneFindsTarget(store: Store, id: Id, name: Option<string>, phone: Option<string>,
                                  key: Option<string>, resp: PhoneResponse)
    requires Truthy(key) && Truthy(phone) && PhoneHeld(store, phone.value)
    ensures UpdateContact(store, id, name, phone, key, resp) != Err(UserNotFound)
  {
    if !HeldByOther(store, id, phone.value) {
      HeldNotByOtherIsOwn(store, id, phone.value);
    }
  }

  /** A phone nobody holds goes to the authority: the update succeeds exactly
      when the reply passes the (inverted) check and the target exists, and
      then phone, country and timezone come from the reply together. */
  lemma UpdateNewPhone(store: Store, id: Id, name: Option<string>, phone: Option<string>,
                       key: Option<string>, resp: PhoneResponse)
    requires Truthy(key) && Truthy(phone) && !PhoneHeld(store, phone.value)
    ensures var r := UpdateContact(store, id, name, phone, key, resp);
            && (r.Ok? <==> resp.status == 200 && !resp.isValid && |resp.timezones| > 0 && id in store)
            && (resp.status != 200 ==> r == Err(ApiNinjaError))
            && (resp.status == 200 && resp.isValid ==> r == Err(NotValid))
            && (r.Ok? ==> r.value.output.contact.phone == phone.value
                          && r.value.output.contact.country == resp.country
                          && r.value.output.contact.timezone == resp.timezones[0])
  {
  }

  /** A successful update keeps every identifier and every other record, and
      leaves country and timezone alone unless the phone changed. */
  lemma UpdateFrame(store: Store, id: Id, name: Option<string>, phone: Option<string>,
                    key: Option<string>, resp: PhoneResponse)
    requires UpdateContact(store, id, name, phone, key, resp).Ok?
    ensures var a := UpdateContact(store, id, name, phone, key, resp).value;
            && a.store.Keys == store.Keys
            && (forall k :: k in store && k != id ==> a.store[k] == store[k])
            && (a.output.contact.phone == store[id].phone ==>
                  a.output.contact.country == store[id].country
                  && a.output.contact.timezone == store[id].timezone)
  {
  }

  /** A successful update keeps phones unique. */
  lemma UpdatePreservesUnique(store: Store, id: Id, name: Option<string>, phone: Option<string>,
                              key: Option<string>, resp: PhoneResponse)
    requires PhonesUnique(store)
    requires UpdateContact(store, id, name, phone, key, resp).Ok?
    ensures PhonesUnique(UpdateContact(store, id, name, phone, key, resp).value.store)
  {
  }

  // ------------------------------------------------------------- deleteContact

  /** Deleting reports true exactly when one record went away; afterwards the
      identifier has no contact, and deleting again reports false and changes nothing. */
  lemma DeleteRemovesOne(store: Store, id: Id)
    ensures var a := DeleteContact(store, id);
            && (a.output ==> |a.store| == |store| - 1)
            && (!a.output ==> a.store == store)
            && GetContact(a.store, id) == None
            && DeleteContact(a.store, id) == Applied(a.store, false)
  {
  }

  /** Deleting keeps phones unique. */
  lemma DeletePreservesUnique(store: Store, id: Id)
    requires PhonesUnique(store)
    ensures PhonesUnique(DeleteContact(store, id).store)
  {
  }
}
