/** The vehicle routes of app.py: registration and the filtered list
    (`veiculos`), editing (`editar_veiculo`) and deletion (`excluir_veiculo`).
    The photo upload is outside the model: `photo` is the URL of a photo
    that was uploaded, or `None` when no file was sent or the upload failed.
    `price` is what `float()` made of the form's text, `None` when it raised. */
module Vehicles {
  import opened Tables
  import opened Text

  /** Registers a vehicle under its plate: available, and with an empty photo
      URL when no photo was uploaded. A price that does not parse, or a plate
      already in the table, is refused with the store unchanged. */
  function Register(s: Store, make: string, model: string, year: string, plate: string,
                    price: Option<real>, photo: Option<string>): (o: Outcome)
    ensures o.Err? <==> price.None? || plate in s.vehicles
    ensures o.Err? ==> o.after == s && o.error == (if price.None? then BadNumber else DuplicateKey)
    ensures o.Ok? ==>
      && o.after.vehicles.Keys == s.vehicles.Keys + {plate}
      && (forall p :: p in s.vehicles ==> o.after.vehicles[p] == s.vehicles[p])
      && o.after.vehicles[plate].available == Some(true)
      && o.after.vehicles[plate].photoUrl == Some(if photo.Some? then photo.value else "")
      && o.after.vehicles[plate].make == make && o.after.vehicles[plate].model == model
      && o.after.vehicles[plate].year == year && Some(o.after.vehicles[plate].price) == price
    ensures o.after.customers == s.customers && o.after.rentals == s.rentals
  {
    if price.None? then Err(BadNumber, s)
    else if plate in s.vehicles then Err(DuplicateKey, s)
    else
      var v := Vehicle(make, model, year, price.value, Some(photo.GetOr("")), Some(true));
      Ok(s.(vehicles := s.vehicles[plate := v]))
  }

  /** The make filter: empty keeps everything, otherwise the make must contain
      the term, ignoring case. */
  predicate MakeMatches(v: Vehicle, make: string) {
    make == "" || ContainsIgnoringCase(v.make, make)
  }

  /** The availability filter: empty keeps everything, `"true"` keeps the
      vehicles whose flag is true, and any other text keeps those whose flag
      is false or absent. */
  predicate AvailabilityMatches(v: Vehicle, flag: string) {
    flag == "" || v.available.GetOr(false) == (flag == "true")
  }

  function FilterMake(vehicles: map<string, Vehicle>, make: string): map<string, Vehicle> {
    if make == "" then vehicles
    else map p | p in vehicles && ContainsIgnoringCase(vehicles[p].make, make) :: vehicles[p]
  }

  function FilterAvailability(vehicles: map<string, Vehicle>, flag: string): map<string, Vehicle> {
    if flag == "" then vehicles
    else map p | p in vehicles && vehicles[p].available.GetOr(false) == (flag == "true") :: vehicles[p]
  }

  /** The vehicle list: the make filter, then the availability filter. The
      result is a part of the table, holding exactly the vehicles both
      filters accept. */
  function List(vehicles: map<string, Vehicle>, make: string, flag: string): (r: map<string, Vehicle>)
    ensures r.Keys <= vehicles.Keys
    ensures forall p :: p in r ==> r[p] == vehicles[p]
    ensures forall p :: p in vehicles ==>
      (p in r <==> MakeMatches(vehicles[p], make) && AvailabilityMatches(vehicles[p], flag))
  {
    FilterAvailability(FilterMake(vehicles, make), flag)
  }

  /** The two filters commute: filtering on availability first gives the same list. */
  lemma FiltersCommute(vehicles: map<string, Vehicle>, make: string, flag: string)
    ensures FilterMake(FilterAvailability(vehicles, flag), make) == List(vehicles, make, flag)
  {
  }

  /** Listing a list again with the same filters changes nothing. */
  lemma ListIdempotent(vehicles: map<string, Vehicle>, make: string, flag: string)
    ensures List(List(vehicles, make, flag), make, flag) == List(vehicles, make, flag)
  {
  }

  /** For a given make, `"true"` and any other non-empty availability filter
      split the unfiltered list in two: nothing is in both, nothing is lost. */
  lemma AvailabilitySplits(vehicles: map<string, Vehicle>, make: string, other: string)
    requires other != "" && other != "true"
    ensures List(vehicles, make, "true").Keys !! List(vehicles, make, other).Keys
    ensures List(vehicles, make, "true").Keys + List(vehicles, make, other).Keys
         == List(vehicles, make, "").Keys
  {
  }

  /** Edits a vehicle's make, model, year and price in place. The plate stays
      the key, the availability is kept (an absent flag is written back as
      available), and the photo URL is kept unless a new photo was uploaded.
      A missing plate or an unparsable price is refused with the store
      unchanged. */
  function Edit(s: Store, plate: string, make: string, model: string, year: string,
                price: Option<real>, photo: Option<string>): (o: Outcome)
    ensures o.Err? <==> plate !in s.vehicles || price.None?
    ensures o.Err? ==> o.after == s && o.error == (if plate !in s.vehicles then NotFound else BadNumber)
    ensures o.Ok? ==> o.after.vehicles.Keys == s.vehicles.Keys
    ensures o.Ok? ==> forall p :: p in s.vehicles && p != plate ==> o.after.vehicles[p] == s.vehicles[p]
    ensures o.Ok? ==>
      var v := s.vehicles[plate];
      var v' := o.after.vehicles[plate];
      && v'.available == Some(v.available.GetOr(true))
      && v'.photoUrl == Some(if photo.Some? then photo.value else v.photoUrl.GetOr(""))
      && v'.make == make && v'.model == model && v'.year == year && Some(v'.price) == price
    ensures o.after.customers == s.customers && o.after.rentals == s.rentals
  {
    if plate !in s.vehicles then Err(NotFound, s)
    else if price.None? then Err(BadNumber, s)
    else
      var v := s.vehicles[plate];
      var edited := Vehicle(make, model, year, price.value,
                            Some(photo.GetOr(v.photoUrl.GetOr(""))), Some(v.available.GetOr(true)));
      Ok(s.(vehicles := s.vehicles[plate := edited]))
  }

  /** Submitting the same edit twice leaves the same store as submitting it once. */
  lemma EditIdempotent(s: Store, plate: string, make: string, model: string, year: string,
                       price: Option<real>, photo: Option<string>)
    requires Edit(s, plate, make, model, year, price, photo).Ok?
    ensures var s1 := Edit(s, plate, make, model, year, price, photo).after;
      Edit(s1, plate, make, model, year, price, photo) == Ok(s1)
  {
    var s1 := Edit(s, plate, make, model, year, price, photo).after;
    var s2 := Edit(s1, plate, make, model, year, price, photo).after;
    assert s2.vehicles[plate] == s1.vehicles[plate];
    assert s2.vehicles == s1.vehicles;
  }

  /** An edit never changes which plates the dashboard and the rental form
      treat as available. */
  lemma EditKeepsAvailablePlates(s: Store, plate: string, make: string, model: string, year: string,
                                 price: Option<real>, photo: Option<string>)
    ensures AvailablePlates(Edit(s, plate, make, model, year, price, photo).after.vehicles)
         == AvailablePlates(s.vehicles)
  {
    var o := Edit(s, plate, make, model, year, price, photo);
    if o.Ok? {
      assert o.after.vehicles[plate].available != Some(false) <==> s.vehicles[plate].available != Some(false);
    }
  }

  /** A vehicle stored without a flag is counted as available by the dashboard
      but left out of the `"true"` list. An edit writes the flag back as true,
      after which the `"true"` list shows it. */
  lemma EditSettlesAbsentFlag(s: Store, plate: string, make: string, model: string, year: string,
                              price: real, photo: Option<string>)
    requires plate in s.vehicles && s.vehicles[plate].available == None
    ensures plate in AvailablePlates(s.vehicles)
    ensures plate !in List(s.vehicles, "", "true")
    ensures var after := Edit(s, plate, make, model, year, Some(price), photo).after;
      plate in List(after.vehicles, "", "true") && plate in AvailablePlates(after.vehicles)
  {
  }

  /** Deletes a vehicle, refused while any rental (of any status) names its
      plate. Deleting a plate that is not in the table changes nothing. */
  function Delete(s: Store, plate: string): (o: Outcome)
    ensures o.Err? <==> exists k :: k in s.rentals && s.rentals[k].vehicle == plate
    ensures o.Err? ==> o.error == InUse && o.after == s
    ensures o.Ok? ==> RemovedAt(s.vehicles, o.after.vehicles, plate) && plate !in o.after.vehicles
    ensures o.after.customers == s.customers && o.after.rentals == s.rentals
  {
    if VehicleRentals(s.rentals, plate) != {} then Err(InUse, s)
    else Ok(s.(vehicles := s.vehicles - {plate}))
  }

  /** The delete guard keeps every rental's vehicle resolvable. */
  lemma DeleteKeepsReferences(s: Store, plate: string)
    requires ReferencesResolve(s)
    ensures ReferencesResolve(Delete(s, plate).after)
  {
    var o := Delete(s, plate);
    if o.Ok? {
      forall k | k in o.after.rentals
        ensures o.after.rentals[k].vehicle in o.after.vehicles
      {
        assert k !in VehicleRentals(s.rentals, plate);
      }
    }
  }
}
