# Contact resolvers — a Dafny model

This project models the decision logic of a small GraphQL contact API
(`resolvers.ts`). Contacts are stored in a document collection. Each contact
has a name and a phone. The country and timezone are derived from a phone
validation service. The model covers the five resolvers:
`getContact`, `getContacts`, `addContact`, `updateContact` and `deleteContact`.

Modelling choices:

- The collection is an immutable `map<Id, Contact>` (`Contacts.Store`).
  Identifiers are abstract natural numbers.
- `addContact` and `updateContact` are pure functions. Each takes the store,
  the GraphQL arguments, the API key and the validation service's reply. It
  returns `Ok(Applied(store', output))` or `Err(error)`. An error carries no
  store, so a failing mutation never writes.
- There is one error per message the resolvers raise, plus `NoTimezone`.
  `NoTimezone` is the model's own error for an empty `timezones` list (see the
  line on empty `timezones` under "## Left out").
- `deleteContact` needs neither key nor reply and never fails. It takes the
  store and an id and returns `Applied(store', removed)`.
- The API key is an `Option<string>`. It stands for the environment lookup.
- The validation service's reply is a value: HTTP status, `is_valid`,
  `country`, `timezones`.
- "Absent" follows JavaScript truthiness: a missing value and `""` are both
  falsy (`Contacts.Truthy`). This applies to the API key, the optional
  `name` and the optional `phone`.
- The validity test is reproduced as written. A reply with `is_valid` true is
  refused with "Not valid", and only a reply with `is_valid` false lets the
  mutation proceed (`Resolvers.ValidatePhone`).
- The API-key check comes first in both `addContact` and `updateContact`.
  In `updateContact` it runs even for name-only updates.
- `Session` applies sequences of mutations one after another. The store
  hands out fresh identifiers from a counter there.

## Model

| member | source | states |
|---|---|---|
| Resolvers.ValidatePhone | resolvers.ts:77-82 | the reply passes exactly when the status is 200, `is_valid` is false and a timezone is listed; a non-200 status is "API Ninja Error"; a reply calling the number valid is "Not valid"; a pass yields the reply's country and first timezone |
| Resolvers.GetContact | resolvers.ts:39-42 | returns a contact exactly when the id is stored, and then the stored contact |
| Resolvers.GetContacts | resolvers.ts:44-46 | returns every stored contact exactly once, each with its stored fields, as many records as the store holds |
| Resolvers.DeleteContact | resolvers.ts:51-54 | reports true exactly when the id was stored; removes that id and no other; keeps every other record as it was |
| Resolvers.AddContact | resolvers.ts:55-97 | succeeds exactly when a truthy key is configured, no contact holds the phone, and the reply passes; then it inserts `{name, phone, country, timezones[0]}` under the new id and returns that record |
| Resolvers.UpdateContact | resolvers.ts:100-157 | on success, the target existed, keeps its id, and is the only record rewritten; the name is the given one when truthy, else the stored one; the phone is the given one when truthy, else the stored one |
| Contacts.CountByPhone | resolvers.ts:64-65 | the count of contacts with the phone is at least one exactly when some contact holds it, and at most one while phones are unique |
| Contacts.HeldNotByOtherIsOwn | resolvers.ts:121-124 | a phone that is held, but not by another contact, is held by the target itself |
| Properties.AddWithoutKeyFailsFirst | resolvers.ts:60-61 | with no truthy key, `addContact` fails with "You need the api key" for every store, reply and id |
| Properties.AddDuplicatePhoneRefused | resolvers.ts:63-65 | with a key, a phone held by any contact fails with "Phone already exists" |
| Properties.AddAuthorityOutcomes | resolvers.ts:77-80 | with a key and a new phone, a non-200 status fails with "API Ninja Error" and a reply calling the number valid fails with "Not valid" |
| Properties.AddRejectsValidNumbers | resolvers.ts:79-80 | no reply that calls the number valid ever leads to an insert |
| Properties.AddFrame | resolvers.ts:84-96 | a successful add adds exactly one id, keeps every existing record, and the new contact reads back as returned with the reply's country |
| Properties.AddPreservesUnique | resolvers.ts:63-65 | a successful add keeps phones unique |
| Properties.AddSamePhoneTwice | resolvers.ts:63-65 | after adding a phone, adding it again fails with "Phone already exists", and exactly one record has that phone |
| Properties.UpdateWithoutKeyFailsFirst | resolvers.ts:105-106 | with no truthy key every update fails with "You need the api key", name-only updates included |
| Properties.UpdateNothingRefused | resolvers.ts:109-111 | with neither a truthy name nor a truthy phone the update fails with "You must at least update one value" |
| Properties.UpdateNameOnly | resolvers.ts:112-119 | a name-only update ignores the reply, fails with "User not found" for an absent id, and otherwise rewrites only the target's name |
| Properties.UpdatePhoneTakenRefused | resolvers.ts:121-122 | a phone held by a different contact fails with "Phone already taken" |
| Properties.UpdateOwnPhone | resolvers.ts:124-132 | re-sending the target's own phone ignores the reply and changes at most the name, falling back to the stored name |
| Properties.UpdateOwnPhoneFindsTarget | resolvers.ts:121-131 | with a key and a phone some contact holds, the update never fails with "User not found": either another contact holds it, or the holder is the target |
| Properties.UpdateNewPhone | resolvers.ts:133-156 | for a phone nobody holds, the update succeeds exactly when the reply passes and the target exists, and then phone, country and first timezone are taken together |
| Properties.UpdateFrame | resolvers.ts:100-157 | a successful update keeps every id and every other record, and leaves country and timezone unchanged unless the phone changed |
| Properties.UpdatePreservesUnique | resolvers.ts:121-132 | a successful update keeps phones unique |
| Properties.DeleteRemovesOne | resolvers.ts:51-54 | true means the store shrank by one, false means it is unchanged; afterwards the id reads back empty and a second delete reports false |
| Properties.DeletePreservesUnique | resolvers.ts:51-54 | deleting keeps phones unique |
| Session.Step | resolvers.ts:55-157 | one request keeps every stored id below the allocation counter and stores at most the freshly allocated id besides the old ones |
| Session.Run | resolvers.ts:55-157 | a sequence of requests keeps ids allocated and advances the counter by at most one per request |
| Session.StepPreservesUnique | resolvers.ts:51-157 | any one request, failed or successful, keeps phones unique |
| Session.RunPreservesUnique | resolvers.ts:51-157 | across any sequence of requests no two stored contacts share a phone |

## Left out

- The `Contact.id` and `Contact.time` field resolvers (resolvers.ts:16-35). One converts the id to a string. The other forwards the stored timezone to a time service.
- The server bootstrap in main.ts: environment lookup, the MongoDB connection and starting the Apollo server.
- HTTP requests, JSON decoding and environment lookups. The validation reply and the API key are parameters instead.
- Parsing ids with `new ObjectId(id)` and its exception on malformed ids. Ids are abstract numbers, so `_id.toString() !== id` at resolvers.ts:122 is plain inequality.
- Concurrency. The check-then-write race between two requests is not modelled. Requests are applied one at a time.
- An empty `timezones` list. In the source `timezones[0]` is then `undefined`, and the resolver passes it to `insertOne` and returns it (resolvers.ts:82, 84-96). The new-phone update passes it on the same way (resolvers.ts:147-155). The model fails with `NoTimezone`, an error the source does not have.
- Resolvers.UpdateContact: the value returned by `findOneAndUpdate` is not modelled. By default the driver returns the document as it was before the update. The model returns the updated record.
- Resolvers.UpdateContact: the new-phone branch (resolvers.ts:149-155) passes a document without update operators, and the driver semantics of that are not modelled. The model overwrites phone, country and timezone. It sets the name only when a truthy name is given, and otherwise keeps the stored one.
- Resolvers.UpdateContact: the source has no null check at resolvers.ts:156 and would return null for an absent target. The model fails with `UserNotFound` instead.
- Resolvers.UpdateContact: if the store already broke phone uniqueness, `findOne({phone})` (resolvers.ts:121) would return whichever holder the store finds first. The model refuses whenever any other contact holds the phone. While phones are unique, which every mutation preserves, the two agree.
- Resolvers.UpdateContact: the "User not found" check in the own-phone branch (resolvers.ts:130) is kept. It cannot fire here, because the holder found at resolvers.ts:121 is the target itself (`Properties.UpdateOwnPhoneFindsTarget`).
