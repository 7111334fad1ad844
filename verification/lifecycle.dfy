/** How the routes fit together over a rental's life: which routes keep every
    rental's references resolvable, where the rental routes let them break,
    and why a vehicle's availability flag is not a function of its active
    rentals. */
module Lifecycle {
  import opened Tables
  import Customers
  import Vehicles
  import Rentals
  import opened Routes

  /** Registrations and vehicle edits never touch a key a rental names. */
  lemma RegistrationsKeepReferences(s: Store, name: string, email: string, phone: string, now: string,
                                    make: string, model: string, year: string, plate: string,
                                    price: Option<real>, photo: Option<string>)
    requires ReferencesResolve(s)
    ensures ReferencesResolve(Customers.Register(s, name, email, phone, now).after)
    ensures ReferencesResolve(Vehicles.Register(s, make, model, year, plate, price, photo).after)
    ensures ReferencesResolve(Vehicles.Edit(s, plate, make, model, year, price, photo).after)
  {
  }

  /** Opening a rental for a customer and a vehicle that both exist keeps
      every reference resolvable. */
  lemma OpenKeepsReferences(s: Store, customer: string, vehicle: string, start: string, end: string,
                            amount: Option<real>, stamp: string)
    requires ReferencesResolve(s)
    requires customer in s.customers && vehicle in s.vehicles
    ensures ReferencesResolve(Rentals.Open(s, customer, vehicle, start, end, amount, stamp).after)
  {
    var o := Rentals.Open(s, customer, vehicle, start, end, amount, stamp);
    var key := Rentals.RentalKey(customer, vehicle, stamp);
    forall k | k in o.after.rentals
      ensures o.after.rentals[k].customer in o.after.customers
      ensures o.after.rentals[k].vehicle in o.after.vehicles
    {
      if k != key || key in s.rentals || amount.None? {
        assert k in s.rentals && o.after.rentals[k] == s.rentals[k];
      }
    }
  }

  /** The customer is never checked: a rental for an unknown email is opened
      successfully and leaves a dangling reference. */
  lemma OpenSkipsCustomerCheck(s: Store, customer: string, vehicle: string, start: string, end: string,
                               amount: real, stamp: string)
    requires customer !in s.customers && vehicle in s.vehicles
    requires Rentals.RentalKey(customer, vehicle, stamp) !in s.rentals
    ensures var o := Rentals.Open(s, customer, vehicle, start, end, Some(amount), stamp);
      o.Ok? && !ReferencesResolve(o.after)
  {
    var key := Rentals.RentalKey(customer, vehicle, stamp);
    var o := Rentals.Open(s, customer, vehicle, start, end, Some(amount), stamp);
    assert key in o.after.rentals && o.after.rentals[key].customer == customer;
  }

  /** The vehicle is looked up only after the rental is written: for an
      unknown plate the route reports NotFound, yet an active rental naming
      that plate stays in the table. */
  lemma FailedOpenLeavesRental(s: Store, customer: string, vehicle: string, start: string, end: string,
                               amount: real, stamp: string)
    requires vehicle !in s.vehicles
    requires Rentals.RentalKey(customer, vehicle, stamp) !in s.rentals
    ensures var o := Rentals.Open(s, customer, vehicle, start, end, Some(amount), stamp);
      var key := Rentals.RentalKey(customer, vehicle, stamp);
      && o.Err? && o.error == NotFound
      && key in o.after.rentals && o.after.rentals[key].status == Active
      && !ReferencesResolve(o.after)
  {
    var key := Rentals.RentalKey(customer, vehicle, stamp);
    var o := Rentals.Open(s, customer, vehicle, start, end, Some(amount), stamp);
    assert key in o.after.rentals && o.after.rentals[key].vehicle == vehicle;
  }

  /** Closing a rental rewrites one rental's status and one vehicle's flag, so
      it keeps every reference resolvable. */
  lemma CloseKeepsReferences(s: Store, id: string, final: Status)
    requires ReferencesResolve(s)
    ensures ReferencesResolve(Rentals.Close(s, id, final).after)
  {
    var o := Rentals.Close(s, id, final);
    forall k | k in o.after.rentals
      ensures o.after.rentals[k].customer in o.after.customers
      ensures o.after.rentals[k].vehicle in o.after.vehicles
    {
      assert k in s.rentals;
      assert o.after.rentals[k].customer == s.rentals[k].customer;
      assert o.after.rentals[k].vehicle == s.rentals[k].vehicle;
    }
  }

  /** The availability flag is written, not derived. Two rentals of the same
      vehicle can both be opened (the second on an unavailable vehicle), and
      cancelling the first marks the vehicle available while the second is
      still active. */
  lemma DoubleBookingThenCancel(s: Store, c1: string, c2: string, vehicle: string,
                                start: string, end: string, amount: real, t1: string, t2: string)
    requires vehicle in s.vehicles
    requires Rentals.RentalKey(c1, vehicle, t1) != Rentals.RentalKey(c2, vehicle, t2)
    requires Rentals.RentalKey(c1, vehicle, t1) !in s.rentals
    requires Rentals.RentalKey(c2, vehicle, t2) !in s.rentals
    ensures var k1 := Rentals.RentalKey(c1, vehicle, t1);
      var k2 := Rentals.RentalKey(c2, vehicle, t2);
      var o1 := Rentals.Open(s, c1, vehicle, start, end, Some(amount), t1);
      var o2 := Rentals.Open(o1.after, c2, vehicle, start, end, Some(amount), t2);
      var o3 := Rentals.Cancel(o2.after, k1);
      && o1.Ok? && o2.Ok? && o3.Ok?
      && o1.after.vehicles[vehicle].available == Some(false)
      && o3.after.vehicles[vehicle].available == Some(true)
      && o3.after.rentals[k2].vehicle == vehicle
      && o3.after.rentals[k2].status == Active
  {
    var k1 := Rentals.RentalKey(c1, vehicle, t1);
    var k2 := Rentals.RentalKey(c2, vehicle, t2);
    var o1 := Rentals.Open(s, c1, vehicle, start, end, Some(amount), t1);
    assert k2 !in o1.after.rentals;
    var o2 := Rentals.Open(o1.after, c2, vehicle, start, end, Some(amount), t2);
    assert k1 in o2.after.rentals && o2.after.rentals[k1].vehicle == vehicle;
    var o3 := Rentals.Cancel(o2.after, k1);
    assert o3.after.rentals[k2] == o2.after.rentals[k2];
  }

  /** A customer, a vehicle, a rental of that vehicle, then its cancellation:
      the vehicle is unavailable while rented and available again after, and
      the rental is stored as cancelled. */
  lemma RentAndCancelScenario()
    ensures
      var s0 := Store(map[], map[], map[]);
      var s1 := Customers.Register(s0, "Ana", "a@x.com", "5551234", "2024-01-01T00:00:00").after;
      var s2 := Vehicles.Register(s1, "Toyota", "Corolla", "2020", "ABC123", Some(80.0), None).after;
      var key := Rentals.RentalKey("a@x.com", "ABC123", "20240102090000");
      var o3 := Rentals.Open(s2, "a@x.com", "ABC123", "2024-01-02", "2024-01-05", Some(100.0), "20240102090000");
      var o4 := Rentals.Cancel(o3.after, key);
      && o3.Ok? && o3.after.vehicles["ABC123"].available == Some(false)
      && o4.Ok? && o4.after.vehicles["ABC123"].available == Some(true)
      && o4.after.rentals[key].status.Label() == "Cancelada"
      && ReferencesResolve(o4.after)
  {
    var s0 := Store(map[], map[], map[]);
    var s1 := Customers.Register(s0, "Ana", "a@x.com", "5551234", "2024-01-01T00:00:00").after;
    var s2 := Vehicles.Register(s1, "Toyota", "Corolla", "2020", "ABC123", Some(80.0), None).after;
    assert ReferencesResolve(s2);
    var key := Rentals.RentalKey("a@x.com", "ABC123", "20240102090000");
    var o3 := Rentals.Open(s2, "a@x.com", "ABC123", "2024-01-02", "2024-01-05", Some(100.0), "20240102090000");
    OpenKeepsReferences(s2, "a@x.com", "ABC123", "2024-01-02", "2024-01-05", Some(100.0), "20240102090000");
    CloseKeepsReferences(o3.after, key, Cancelled);
  }

  /** The rental form offers exactly the vehicles of the `"true"` list plus
      those stored without a flag; the two parts do not overlap. */
  lemma OfferedIsTrueListPlusUnflagged(vs: map<string, Vehicle>)
    ensures Rentals.Offered(vs).Keys
         == Vehicles.List(vs, "", "true").Keys + (set p | p in vs && vs[p].available == None)
    ensures Vehicles.List(vs, "", "true").Keys !! (set p | p in vs && vs[p].available == None)
  {
  }

  /** The rental key a request writes, when it writes one: an opening with a
      parsed amount whose key is not yet taken. */
  function NewRental(s: Store, req: Request): set<string> {
    if req.OpenRental? && req.amount.Some?
       && Rentals.RentalKey(req.customer, req.vehicle, req.stamp) !in s.rentals
    then {Rentals.RentalKey(req.customer, req.vehicle, req.stamp)}
    else {}
  }

  /** Rewriting rentals in place without changing their vehicles keeps
      every plate's rentals. */
  lemma SameVehicles(before: map<string, Rental>, after: map<string, Rental>, plate: string)
    requires after.Keys == before.Keys
    requires forall k :: k in before ==> after[k].vehicle == before[k].vehicle
    ensures VehicleRentals(after, plate) == VehicleRentals(before, plate)
  {
  }

  /** Rewriting rentals in place without touching those of `email`, or
      moving any rental to it, keeps that email's rentals. */
  lemma SameCustomer(before: map<string, Rental>, after: map<string, Rental>, email: string)
    requires after.Keys == before.Keys
    requires forall k :: k in before ==> (after[k].customer == email <==> before[k].customer == email)
    ensures CustomerRentals(after, email) == CustomerRentals(before, email)
  {
  }

  /** Adding one rental to the table adds its key to the rentals of its
      plate and of its customer, and to no others. */
  lemma AddedRental(before: map<string, Rental>, key: string, r: Rental, plate: string, email: string)
    requires key !in before
    ensures VehicleRentals(before[key := r], plate)
         == VehicleRentals(before, plate) + (if r.vehicle == plate then {key} else {})
    ensures CustomerRentals(before[key := r], email)
         == CustomerRentals(before, email) + (if r.customer == email then {key} else {})
  {
  }

  /** One request and the rentals of a plate: an opening of that plate adds
      its new key and nothing else; every other request, whatever its
      outcome, leaves the plate's rentals as they were. */
  lemma StepVehicleRentals(s: Store, req: Request, plate: string)
    ensures VehicleRentals(Apply(s, req).after.rentals, plate)
         == VehicleRentals(s.rentals, plate)
            + (if req.OpenRental? && req.vehicle == plate then NewRental(s, req) else {})
  {
    if req.OpenRental? {
      OpenRentals(s, req, plate, "");
    } else if req.ChangePersonalData? || req.CancelRental? || req.FinishRental? {
      SameVehicles(s.rentals, Apply(s, req).after.rentals, plate);
    } else {
      OtherRoutesKeepRentals(s, req);
    }
  }

  /** One request and the rentals of an email: an opening for that email adds
      its new key; a successful email change only moves rentals between its
      old and new email; every other request, a same-email update or a
      refused change included, leaves them as they were. */
  lemma StepCustomerRentals(s: Store, req: Request, email: string)
    ensures !(req.ChangePersonalData? && req.original != req.newEmail && Apply(s, req).Ok?
              && email in {req.original, req.newEmail}) ==>
      CustomerRentals(Apply(s, req).after.rentals, email)
      == CustomerRentals(s.rentals, email)
         + (if req.OpenRental? && req.customer == email then NewRental(s, req) else {})
  {
    if req.OpenRental? {
      OpenRentals(s, req, "", email);
    } else if req.ChangePersonalData? {
      if !(req.original != req.newEmail && Apply(s, req).Ok?) {
        assert Apply(s, req).after.rentals == s.rentals;
      } else if email != req.original && email != req.newEmail {
        SameCustomer(s.rentals, Apply(s, req).after.rentals, email);
      }
    } else if req.CancelRental? || req.FinishRental? {
      SameCustomer(s.rentals, Apply(s, req).after.rentals, email);
    } else {
      OtherRoutesKeepRentals(s, req);
    }
  }

  /** Registrations, vehicle edits and deletes never write a rental. */
  lemma OtherRoutesKeepRentals(s: Store, req: Request)
    requires req.RegisterCustomer? || req.DeleteCustomer? || req.RegisterVehicle?
          || req.EditVehicle? || req.DeleteVehicle?
    ensures Apply(s, req).after.rentals == s.rentals
  {
  }

  /** An opening writes its new key, if any, and no other rental. */
  lemma OpenRentals(s: Store, req: Request, plate: string, email: string)
    requires req.OpenRental?
    ensures VehicleRentals(Apply(s, req).after.rentals, plate)
         == VehicleRentals(s.rentals, plate) + (if req.vehicle == plate then NewRental(s, req) else {})
    ensures CustomerRentals(Apply(s, req).after.rentals, email)
         == CustomerRentals(s.rentals, email) + (if req.customer == email then NewRental(s, req) else {})
  {
    var key := Rentals.RentalKey(req.customer, req.vehicle, req.stamp);
    var after := Apply(s, req).after;
    if req.amount.Some? && key !in s.rentals {
      var r := Rental(req.customer, req.vehicle, req.start, req.end, req.amount.value, Active);
      assert after.rentals == s.rentals[key := r];
      AddedRental(s.rentals, key, r, plate, email);
    } else {
      assert after.rentals == s.rentals;
    }
  }

  /** No sequence of requests takes a rental away from its plate. */
  lemma {:induction false} RunKeepsVehicleRentals(s: Store, reqs: seq<Request>, plate: string)
    ensures VehicleRentals(s.rentals, plate) <= VehicleRentals(Run(s, reqs).rentals, plate)
    decreases |reqs|
  {
    if reqs != [] {
      StepVehicleRentals(s, reqs[0], plate);
      RunKeepsVehicleRentals(Apply(s, reqs[0]).after, reqs[1..], plate);
    }
  }

  /** Once a plate has a rental, of any status, deleting the vehicle is
      refused in every later store, whatever requests come in between. */
  lemma VehicleDeleteStaysRefused(s: Store, reqs: seq<Request>, plate: string)
    requires VehicleRentals(s.rentals, plate) != {}
    ensures Vehicles.Delete(Run(s, reqs), plate) == Err(InUse, Run(s, reqs))
  {
    RunKeepsVehicleRentals(s, reqs, plate);
  }
}
