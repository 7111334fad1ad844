/** The rental routes of app.py: opening a rental (`locacoes`), the vehicles
    its form offers, and closing a rental (`cancelar_locacao`,
    `finalizar_locacao`). None of them consults a rental's status or a
    vehicle's availability before writing. */
module Rentals {
  import opened Tables
  import Vehicles

  /** The row key of a new rental: customer, vehicle and the caller-supplied
      timestamp text, joined by dashes. */
  function RentalKey(customer: string, vehicle: string, stamp: string): (k: string)
    ensures |k| == |customer| + |vehicle| + |stamp| + 2
    ensures k[..|customer|] == customer && k[|customer|] == '-'
    ensures k[|customer| + 1..|customer| + 1 + |vehicle|] == vehicle && k[|customer| + 1 + |vehicle|] == '-'
    ensures k[|customer| + |vehicle| + 2..] == stamp
  {
    customer + "-" + vehicle + "-" + stamp
  }

  /** The key does not tell its parts apart when a part holds a dash: the
      plate "ABC-1234" rented by "ana@x.com" and the plate "1234" rented by
      "ana@x.com-ABC" get the same key at the same second, so the second
      rental is refused as a duplicate. */
  lemma RentalKeysCollide(s: Store, stamp: string, start: string, end: string, amount: real)
    requires RentalKey("ana@x.com", "ABC-1234", stamp) !in s.rentals
    ensures RentalKey("ana@x.com", "ABC-1234", stamp) == RentalKey("ana@x.com-ABC", "1234", stamp)
    ensures var s1 := Open(s, "ana@x.com", "ABC-1234", start, end, Some(amount), stamp).after;
      Open(s1, "ana@x.com-ABC", "1234", start, end, Some(amount), stamp) == Err(DuplicateKey, s1)
  {
    assert RentalKey("ana@x.com", "ABC-1234", stamp) == RentalKey("ana@x.com-ABC", "1234", stamp);
  }

  /** The vehicles the rental form offers: those whose flag is true or absent,
      which is the vehicle list filtered on `"true"` plus the vehicles stored
      without a flag. */
  function Offered(vehicles: map<string, Vehicle>): (r: map<string, Vehicle>)
    ensures r.Keys == Vehicles.List(vehicles, "", "true").Keys
                    + (set p | p in vehicles && vehicles[p].available == None)
    ensures forall p :: p in r ==> r[p] == vehicles[p]
  {
    map p | p in vehicles && vehicles[p].available.GetOr(true) :: vehicles[p]
  }

  /** Opens a rental. The record is written first, with status Active; then the
      vehicle is read and marked unavailable. A missing vehicle is reported
      only after the rental has been written, and the customer is never
      checked. An amount that does not parse, or a row key already taken, is
      refused before any write. */
  function Open(s: Store, customer: string, vehicle: string, start: string, end: string,
                amount: Option<real>, stamp: string): (o: Outcome)
    ensures amount.None? ==> o == Err(BadNumber, s)
    ensures amount.Some? && RentalKey(customer, vehicle, stamp) in s.rentals ==> o == Err(DuplicateKey, s)
    ensures amount.Some? && RentalKey(customer, vehicle, stamp) !in s.rentals ==>
      && UpdatedAt(s.rentals, o.after.rentals, RentalKey(customer, vehicle, stamp),
                   Rental(customer, vehicle, start, end, amount.value, Active))
      && o.after.customers == s.customers
      && (vehicle !in s.vehicles ==> o.Err? && o.error == NotFound && o.after.vehicles == s.vehicles)
      && (vehicle in s.vehicles ==> o.Ok?)
    ensures o.Ok? ==>
      && vehicle in s.vehicles
      && o.after.vehicles.Keys == s.vehicles.Keys
      && o.after.vehicles[vehicle] == s.vehicles[vehicle].(available := Some(false))
      && forall p :: p in s.vehicles && p != vehicle ==> o.after.vehicles[p] == s.vehicles[p]
  {
    if amount.None? then Err(BadNumber, s)
    else
      var key := RentalKey(customer, vehicle, stamp);
      if key in s.rentals then Err(DuplicateKey, s)
      else
        var written := s.(rentals := s.rentals[key := Rental(customer, vehicle, start, end, amount.value, Active)]);
        if vehicle !in s.vehicles then Err(NotFound, written)
        else Ok(written.(vehicles := s.vehicles[vehicle := s.vehicles[vehicle].(available := Some(false))]))
  }

  /** Closes a rental with status `final`, whatever its current status, and
      marks its vehicle available. A missing rental is refused with the store
      unchanged; a missing vehicle is reported after the status was written. */
  function Close(s: Store, id: string, final: Status): (o: Outcome)
    ensures id !in s.rentals ==> o == Err(NotFound, s)
    ensures id in s.rentals ==>
      && UpdatedAt(s.rentals, o.after.rentals, id, s.rentals[id].(status := final))
      && o.after.customers == s.customers
      && (s.rentals[id].vehicle !in s.vehicles ==>
            o.Err? && o.error == NotFound && o.after.vehicles == s.vehicles)
      && (s.rentals[id].vehicle in s.vehicles ==> o.Ok?)
    ensures o.Ok? ==>
      && id in s.rentals
      && var plate := s.rentals[id].vehicle;
      && plate in s.vehicles
      && o.after.vehicles.Keys == s.vehicles.Keys
      && o.after.vehicles[plate] == s.vehicles[plate].(available := Some(true))
      && forall p :: p in s.vehicles && p != plate ==> o.after.vehicles[p] == s.vehicles[p]
  {
    if id !in s.rentals then Err(NotFound, s)
    else
      var r := s.rentals[id];
      var written := s.(rentals := s.rentals[id := r.(status := final)]);
      if r.vehicle !in s.vehicles then Err(NotFound, written)
      else Ok(written.(vehicles := s.vehicles[r.vehicle := s.vehicles[r.vehicle].(available := Some(true))]))
  }

  /** `cancelar_locacao`: the rental ends up with status "Cancelada". */
  function Cancel(s: Store, id: string): (o: Outcome)
    ensures id in s.rentals ==> id in o.after.rentals && o.after.rentals[id].status.Label() == "Cancelada"
    ensures id !in s.rentals ==> o == Err(NotFound, s)
  {
    Close(s, id, Cancelled)
  }

  /** `finalizar_locacao`: the rental ends up with status "Finalizada". */
  function Finish(s: Store, id: string): (o: Outcome)
    ensures id in s.rentals ==> id in o.after.rentals && o.after.rentals[id].status.Label() == "Finalizada"
    ensures id !in s.rentals ==> o == Err(NotFound, s)
  {
    Close(s, id, Finished)
  }

  /** Closing a rental twice the same way leaves the same store, and the
      same report, as closing it once. */
  lemma {:induction false} CloseIdempotent(s: Store, id: string, final: Status)
    ensures Close(Close(s, id, final).after, id, final) == Close(s, id, final)
  {
    var o := Close(s, id, final);
    if id in s.rentals {
      var s1 := o.after;
      assert s1.rentals[id := s1.rentals[id].(status := final)] == s1.rentals;
      var plate := s.rentals[id].vehicle;
      assert s1.rentals[id].vehicle == plate;
      if plate in s.vehicles {
        assert s1.vehicles[plate := s1.vehicles[plate].(available := Some(true))] == s1.vehicles;
      }
    }
  }

  /** Nothing stops a closed rental from being closed again the other way:
      cancelling a finished rental leaves it cancelled. */
  lemma CancelOverridesFinish(s: Store, id: string)
    requires id in s.rentals
    ensures Cancel(Finish(s, id).after, id).after.rentals[id].status == Cancelled
  {
  }

  /** Opening a rental does not look at the vehicle's availability: a vehicle
      already marked unavailable can be rented again. */
  lemma OpenIgnoresAvailability(s: Store, customer: string, vehicle: string, start: string,
                                end: string, amount: real, stamp: string)
    requires vehicle in s.vehicles && s.vehicles[vehicle].available == Some(false)
    requires RentalKey(customer, vehicle, stamp) !in s.rentals
    ensures Open(s, customer, vehicle, start, end, Some(amount), stamp).Ok?
  {
  }

  /** Opening a rental and then cancelling it leaves the vehicle available and
      the rental recorded as cancelled. */
  lemma OpenThenCancel(s: Store, customer: string, vehicle: string, start: string, end: string,
                       amount: real, stamp: string)
    requires vehicle in s.vehicles
    requires RentalKey(customer, vehicle, stamp) !in s.rentals
    ensures var key := RentalKey(customer, vehicle, stamp);
      var s1 := Open(s, customer, vehicle, start, end, Some(amount), stamp).after;
      var o := Cancel(s1, key);
      && s1.vehicles[vehicle].available == Some(false)
      && o.Ok?
      && o.after.vehicles[vehicle].available == Some(true)
      && o.after.rentals[key] == Rental(customer, vehicle, start, end, amount, Cancelled)
  {
    var key := RentalKey(customer, vehicle, stamp);
    var s1 := Open(s, customer, vehicle, start, end, Some(amount), stamp).after;
    assert s1.rentals[key].vehicle == vehicle;
  }
}
