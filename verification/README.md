# Car-rental back office: rental bookkeeping model

This project models the bookkeeping of a small car-rental back office written as a Flask
application (`app.py`) over three Azure tables:

- **clientes**: customers, keyed by email;
- **veiculos**: vehicles, keyed by plate, each with an availability flag `Disponivel`;
- **locacoes**: rentals, keyed by `cliente-veiculo-timestamp`. Each rental names a
  customer and a vehicle and carries a status: `Ativa`, `Cancelada` or `Finalizada`.

Each route that changes state is a pure function from a `Tables.Store` (three immutable
maps) to an `Outcome`. An `Outcome` is either `Ok(after)` or `Err(error, after)`. A failed
route carries the store too, because the rental routes can fail after their first write.

The model assumes four things about the table client, and that every other table call
succeeds:

- creating an entity whose row key exists fails;
- reading a missing row key fails;
- updating a missing row key fails (unconditional merge update);
- deleting a missing row key succeeds and changes nothing.

Values the routes get from outside are parameters:

- `now` / `stamp`: the clock's text;
- `photo`: the URL of an uploaded photo, `None` when no file was sent or the upload failed;
- `price` / `amount`: the result of `float()` on the form text, `None` when it raised.

Modules:

- `Text` (text.dfy): lower-casing of ASCII and Latin-1 capitals, and a substring test proved
  equal to "some window equals the needle".
- `Tables` (tables.dfy): records, store, errors, outcome, and the rental queries by
  customer and by vehicle.
- `Customers` (customers.dfy): `clientes`, `excluir_cliente`, `editar_dados_pessoais`.
- `Vehicles` (vehicles.dfy): `veiculos`, `editar_veiculo`, `excluir_veiculo`.
- `Rentals` (rentals.dfy): `locacoes`, `cancelar_locacao`, `finalizar_locacao`.
- `Admin` (admin.dfy): the `admin` dashboard counts.
- `Routes` (routes.dfy): every state-changing route except `editar_cliente` as one request
  type, and a run of requests one after another.
- `Lifecycle` (lifecycle.dfy): which routes keep references resolvable, how each route
  changes the rentals of a plate or an email, and why availability is written rather than
  derived.

Behaviours of the code that the model keeps, though a reader might expect otherwise:

- Opening a rental never checks that the customer exists. It writes the rental before it
  looks up the vehicle, so an unknown plate is reported as NotFound only after an active
  rental naming it is stored (`Lifecycle.FailedOpenLeavesRental`).
- Opening a rental never checks the vehicle's availability. Cancelling and finishing never
  check the current status.
- As a result, "a vehicle is unavailable exactly when it has an active rental" is not an
  invariant. `Lifecycle.DoubleBookingThenCancel` shows a vehicle marked available while
  one of its rentals is still active.
- The delete guards refuse on a rental of any status, not only an active one.

## Model

| member | source | states |
|---|---|---|
| Text.Lower | app.py:97 | the lower-cased string has the same length; each character is the original one, or, for an ASCII capital or a Latin-1 capital U+00C0-U+00DE other than U+00D7, the letter 0x20 above it; no such capital is left |
| Text.Contains | app.py:97 | the executable `in` test is true exactly when some window of the haystack equals the needle |
| Tables.AvailablePlates | app.py:286 | the plates counted as available are the vehicles whose flag is true or absent; they are a subset of the table |
| Customers.Register | app.py:71-90 | succeeds exactly when the email is new; the new record is readable under its email and no other key changes; a duplicate email is refused with the store unchanged |
| Customers.RegisterThenRead | app.py:77-85 | after a registration the record reads back as written, and registering the same email again fails with DuplicateKey |
| Customers.Search | app.py:93-97 | an empty term returns every customer; otherwise exactly the customers whose lower-cased name or email has the lower-cased term as a substring; records are returned unchanged |
| Customers.SearchNarrows | app.py:96-97 | a longer term that contains a shorter one, ignoring case, never returns a customer the shorter term leaves out |
| Customers.SearchFindsByName | app.py:97 | any term whose lower-cased form equals the lower-cased name, whatever its case, returns that customer |
| Customers.SearchIgnoresTermCase | app.py:97 | searching for the lower-case spelling of a term returns the same customers as the term itself |
| Customers.SearchFindsBySubstring | app.py:96-97 | a term that occurs, as written, in a customer's name or email finds that customer |
| Customers.SearchFoldsAccents | app.py:97 | a customer named "ÉRICA" is found by the term "érica", as Python's `str.lower` folds accented capitals |
| Customers.Delete | app.py:128-144 | refused with InUse and the store unchanged exactly when some rental of any status names the email; otherwise only that email's record is removed |
| Customers.DeleteKeepsReferences | app.py:131-139 | a delete that the guard allows leaves every rental's customer present |
| Customers.Repoint | app.py:454-460 | every rental of the old email names the new one with all other fields kept; rentals of other customers are untouched; no rental is added or removed |
| Customers.RepointLoop | app.py:455-460 | the route's loop, which queries the rentals of the old email and rewrites them one by one, ends in the same rental table as `Repoint` |
| Customers.RepointMovesHistory | app.py:455-460 | after repointing, the new email holds its own rentals plus those of the old email, and the old email holds none |
| Customers.ChangePersonalData | app.py:425-477 | any empty field: refused, store unchanged. New email already taken: refused, store unchanged. New email free: new record created, old one removed, matching rentals repointed, other customers and rentals untouched. Same email: name and phone updated in place with the registration date kept, or NotFound if the email is missing |
| Customers.ChangeEmailMovesHistory | app.py:434-463 | when every reference resolves, an email change gives the new email exactly the old email's rental history and leaves the old email with none |
| Customers.ChangePersonalDataKeepsReferences | app.py:431-477 | every branch of the personal-data form keeps every rental's customer and vehicle present |
| Vehicles.Register | app.py:170-203 | an unparsable price or an existing plate is refused with the store unchanged; otherwise the plate is added with `Disponivel` true and an empty photo URL when no photo was uploaded, and no other vehicle changes |
| Vehicles.List | app.py:205-216 | the list is a part of the table holding exactly the vehicles whose make contains the term, ignoring case, and whose flag matches: `"true"` keeps true, any other non-empty text keeps false or absent |
| Vehicles.FiltersCommute | app.py:211-216 | applying the availability filter before the make filter gives the same list |
| Vehicles.ListIdempotent | app.py:211-216 | filtering an already filtered list with the same filters changes nothing |
| Vehicles.AvailabilitySplits | app.py:214-216 | for one make, `"true"` and any other non-empty availability value give disjoint lists whose union is the unfiltered list |
| Vehicles.Edit | app.py:222-255 | a missing plate (NotFound) or an unparsable price (BadNumber) leaves the store unchanged. Otherwise the plate stays the key and the previous availability is kept (absent becomes true). The previous photo URL is kept unless a new photo was uploaded, and no other vehicle changes |
| Vehicles.EditIdempotent | app.py:229-251 | submitting the same edit twice leaves the same store as submitting it once |
| Vehicles.EditKeepsAvailablePlates | app.py:249 | an edit never changes which plates the dashboard and the rental form count as available |
| Vehicles.EditSettlesAbsentFlag | app.py:206-249 | a vehicle stored without `Disponivel` counts as available for the dashboard and the rental form but is left out of the `"true"` list; after an edit it is in both |
| Vehicles.Delete | app.py:264-280 | refused with InUse and the store unchanged exactly when some rental of any status names the plate; otherwise only that plate is removed |
| Vehicles.DeleteKeepsReferences | app.py:267-275 | a delete that the guard allows leaves every rental's vehicle present |
| Rentals.RentalKey | app.py:298 | the row key is the customer, a dash, the vehicle, a dash and the timestamp, in that order; its length is the lengths of the three parts plus the two dashes |
| Rentals.RentalKeysCollide | app.py:298 | the key does not separate its parts: "ana@x.com" renting "ABC-1234" and "ana@x.com-ABC" renting "1234" in the same second get the same key, and the second opening is refused as DuplicateKey |
| Rentals.Offered | app.py:286 | the rental form offers the vehicles of the vehicle list filtered on `"true"` plus the vehicles stored without a flag, with their records unchanged |
| Rentals.Open | app.py:288-318 | an unparsable amount or a taken row key is refused with the store unchanged. Otherwise an Active rental is written under the new key first. Then either the vehicle is marked unavailable, with no other vehicle changed, or the route reports NotFound with the rental already written. The customer table (listed at app.py:285 for the form) is never consulted to check `cliente` and never changed |
| Rentals.Close | app.py:338-372 | a missing rental is refused with the store unchanged. Otherwise the rental's status becomes the final one, whatever it was. Then the vehicle is marked available, with no other vehicle changed, or NotFound is reported after the status write |
| Rentals.Cancel | app.py:338-354 | an existing rental ends with the stored status "Cancelada"; a missing one is refused with the store unchanged |
| Rentals.Finish | app.py:356-372 | an existing rental ends with the stored status "Finalizada"; a missing one is refused with the store unchanged |
| Rentals.CloseIdempotent | app.py:338-372 | cancelling or finishing twice gives the same store and the same report as doing it once |
| Rentals.CancelOverridesFinish | app.py:341-343 | a finished rental can still be cancelled, and ends cancelled |
| Rentals.OpenIgnoresAvailability | app.py:295-312 | a rental of a vehicle already marked unavailable is opened successfully |
| Rentals.OpenThenCancel | app.py:296-348 | opening then cancelling a rental leaves the vehicle unavailable in between, available after, and the rental stored as cancelled with its other fields intact |
| Admin.Dashboard | app.py:54-66 | the counts are the three table sizes and the available count; the available count never exceeds the vehicle count and equals the length of the rental form's vehicle list |
| Admin.OpenTakesVehicle | app.py:307-312 | a successful rental adds one rental and removes its plate from the available plates. The available count drops by one, or is unchanged when the vehicle was already unavailable |
| Admin.CloseReturnsVehicle | app.py:345-348 | a successful cancel or finish adds the rental's plate to the available plates; the available count rises by one, or is unchanged when the vehicle was already available |
| Lifecycle.RegistrationsKeepReferences | app.py:71-251 | customer registration, vehicle registration and vehicle edits keep every rental's customer and vehicle present |
| Lifecycle.OpenKeepsReferences | app.py:296-312 | opening a rental for an existing customer and an existing vehicle keeps every reference resolvable |
| Lifecycle.OpenSkipsCustomerCheck | app.py:289-312 | a rental for an unknown customer email is opened successfully and leaves a dangling customer reference |
| Lifecycle.FailedOpenLeavesRental | app.py:307-310 | for an unknown plate the route reports NotFound, yet an Active rental naming that plate remains stored |
| Lifecycle.CloseKeepsReferences | app.py:338-372 | cancelling or finishing keeps every reference resolvable |
| Lifecycle.DoubleBookingThenCancel | app.py:286-348 | two rentals of one vehicle can both be opened; cancelling the first marks the vehicle available while the second is still Active |
| Lifecycle.OfferedIsTrueListPlusUnflagged | app.py:286 | the rental form offers exactly the vehicles of the vehicle list filtered on `"true"` plus the vehicles stored without a flag, and no vehicle is in both parts |
| Routes.Run | app.py:283-372 | no route removes a rental: after any sequence of requests, successful or failed, every rental key is still in the table |
| Lifecycle.StepVehicleRentals | app.py:268-270 | the query `Veiculo eq '<plate>'` gains exactly the new key when a rental of that plate is opened with a parsed amount and a free key, and is unchanged by every other request and outcome |
| Lifecycle.StepCustomerRentals | app.py:132-134 | the query `Cliente eq '<email>'` gains exactly the new key when a rental for that email is opened, and is unchanged by every other request, a same-email update and a refused email change included, except a successful email change from or to that email |
| Lifecycle.RunKeepsVehicleRentals | app.py:268-270 | over any sequence of requests, a plate keeps every rental it had |
| Lifecycle.VehicleDeleteStaysRefused | app.py:268-273 | once a plate has a rental of any status, deleting the vehicle is refused with InUse in every later store |
| Lifecycle.RentAndCancelScenario | app.py:71-354 | register customer "a@x.com" and vehicle "ABC123", rent it, cancel: the vehicle is unavailable while rented and available after, the rental is stored as "Cancelada", and all references resolve |

## Left out

- Flask routing, templates, redirects and flash messages: presentation only. Each route's
  message is reflected only as the `Error` it reports.
- Uploading a photo to blob storage and building its URL (app.py:179-185, app.py:233-239):
  an external service. Only its outcome enters the model, as an optional URL.
- Environment and configuration loading, and creation of the container and tables
  (app.py:11-43): set-up I/O.
- Float parsing of `Preco` and `Valor`, and the string-to-float repair at app.py:394-400:
  floating-point numerics. A price is a `real` that the model never computes with. Parse
  failure is a `None` argument.
- `datetime.now`: timestamps are caller-supplied text. Two rentals of the same pair within
  one second become a DuplicateKey from the create assumption; clock resolution is not
  modelled.
- Rentals.RentalKey: the key is not injective. When a customer email or a plate holds a
  dash, two different pairs can share a key in the same second and the second opening is
  refused as DuplicateKey (`Rentals.RentalKeysCollide`).
- Table failures other than the four assumed ones: every other table call (listing,
  querying, and an update whose row exists) is assumed to succeed. Throttling and network
  errors are not modelled, nor is an `update_entity` that fails after the rental's
  `create_entity` has succeeded (app.py:307-312).
- Read-only pages and their enrichment with `"N/A"` placeholders (`historico_cliente`,
  the rental list of `locacoes`, `historico_pessoal`, and the load branch of
  `editar_dados_pessoais`): display only.
- `editar_cliente` (app.py:101-126) is not part of this model. Its update is the same as
  the same-email branch of `Customers.ChangePersonalData`.
- OData filter strings: modelled as equality queries. Quote injection through an email or
  plate is not modelled.
- Concurrent requests: every route runs alone and to completion.
- Text.Lower: lower-cases ASCII capitals and the Latin-1 capitals U+00C0-U+00DE (except
  U+00D7) only. Python's `str.lower` also maps capitals beyond Latin-1 (Latin Extended,
  Greek, Cyrillic and others) and has special cases such as U+0130, which lowers to two
  characters; these are left as they are.
- Customers.Search: returns a map keyed by email, not the table's ordered list, so it says
  nothing about the order of results.
- Vehicles.List: returns a map keyed by plate, not the table's ordered list, so it says
  nothing about the order of results.
