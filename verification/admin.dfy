/** The administration dashboard (`admin`): table sizes and the number of
    vehicles counted as available, and how the rental routes move that number. */
module Admin {
  import opened Tables
  import Rentals

  datatype Counts = Counts(customers: nat, vehicles: nat, rentals: nat, available: nat)

  /** A part of a set is no larger than the set. */
  lemma {:induction false} SubsetNoLarger(a: set<string>, b: set<string>)
    requires a <= b
    ensures |a| <= |b|
  {
    if a != {} {
      var x :| x in a;
      SubsetNoLarger(a - {x}, b - {x});
    }
  }

  /** Removing a member takes one off the count; adding a newcomer adds one. */
  lemma SingletonCounts(a: set<string>, x: string)
    ensures x in a ==> |a - {x}| == |a| - 1
    ensures x !in a ==> |a + {x}| == |a| + 1
  {
    if x in a {
      assert a == (a - {x}) + {x};
    }
  }

  /** The dashboard's four numbers. The available count never exceeds the
      vehicle count, and it is the length of the rental form's vehicle list. */
  function Dashboard(s: Store): (c: Counts)
    ensures c.customers == |s.customers.Keys| && c.vehicles == |s.vehicles.Keys| && c.rentals == |s.rentals.Keys|
    ensures c.available <= c.vehicles
    ensures c.available == |Rentals.Offered(s.vehicles).Keys|
  {
    SubsetNoLarger(AvailablePlates(s.vehicles), s.vehicles.Keys);
    Counts(|s.customers|, |s.vehicles|, |s.rentals|, |AvailablePlates(s.vehicles)|)
  }

  /** Writing one vehicle's flag moves only that plate on or off the
      available list, and the count by at most one. */
  lemma {:induction false} FlagWritten(vs: map<string, Vehicle>, vs': map<string, Vehicle>, plate: string, flag: bool)
    requires plate in vs && vs'.Keys == vs.Keys
    requires vs'[plate] == vs[plate].(available := Some(flag))
    requires forall p :: p in vs && p != plate ==> vs'[p] == vs[p]
    ensures AvailablePlates(vs') == if flag then AvailablePlates(vs) + {plate} else AvailablePlates(vs) - {plate}
    ensures |AvailablePlates(vs')| == |AvailablePlates(vs)| + (
      if flag && plate !in AvailablePlates(vs) then 1
      else if !flag && plate in AvailablePlates(vs) then -1
      else 0)
  {
    var a := AvailablePlates(vs);
    var a' := AvailablePlates(vs');
    if flag {
      assert a' == a + {plate};
      SingletonCounts(a, plate);
    } else {
      assert a' == a - {plate};
      SingletonCounts(a, plate);
    }
  }

  /** A successful rental adds one rental and takes its vehicle off the
      available list: the count drops by one if the vehicle was on it, and
      stays put if it was already off (a double booking). */
  lemma OpenTakesVehicle(s: Store, customer: string, vehicle: string, start: string, end: string,
                         amount: Option<real>, stamp: string)
    requires Rentals.Open(s, customer, vehicle, start, end, amount, stamp).Ok?
    ensures var after := Rentals.Open(s, customer, vehicle, start, end, amount, stamp).after;
      && AvailablePlates(after.vehicles) == AvailablePlates(s.vehicles) - {vehicle}
      && Dashboard(after).rentals == Dashboard(s).rentals + 1
      && Dashboard(after).available
         == Dashboard(s).available - (if vehicle in AvailablePlates(s.vehicles) then 1 else 0)
      && Dashboard(after).customers == Dashboard(s).customers
      && Dashboard(after).vehicles == Dashboard(s).vehicles
  {
    var after := Rentals.Open(s, customer, vehicle, start, end, amount, stamp).after;
    FlagWritten(s.vehicles, after.vehicles, vehicle, false);
    SingletonCounts(s.rentals.Keys, Rentals.RentalKey(customer, vehicle, stamp));
  }

  /** A successful cancel or finish puts the rental's vehicle on the available
      list: the count rises by one if it was off, and stays put otherwise. */
  lemma CloseReturnsVehicle(s: Store, id: string, final: Status)
    requires Rentals.Close(s, id, final).Ok?
    ensures var after := Rentals.Close(s, id, final).after;
      var plate := s.rentals[id].vehicle;
      && AvailablePlates(after.vehicles) == AvailablePlates(s.vehicles) + {plate}
      && Dashboard(after).available
         == Dashboard(s).available + (if plate in AvailablePlates(s.vehicles) then 0 else 1)
      && Dashboard(after).rentals == Dashboard(s).rentals
  {
    var after := Rentals.Close(s, id, final).after;
    FlagWritten(s.vehicles, after.vehicles, s.rentals[id].vehicle, true);
  }
}
