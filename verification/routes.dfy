/** Every state-changing route of app.py except `editar_cliente`, which is
    not part of this model, as one request type, so that a sequence of
    requests can be followed from one store to the next. */
module Routes {
  import opened Tables
  import Customers
  import Vehicles
  import Rentals

  datatype Request =
    | RegisterCustomer(name: string, email: string, phone: string, now: string)
    | DeleteCustomer(email: string)
    | ChangePersonalData(original: string, name: string, phone: string, newEmail: string, now: string)
    | RegisterVehicle(make: string, model: string, year: string, plate: string,
                      price: Option<real>, photo: Option<string>)
    | EditVehicle(plate: string, make: string, model: string, year: string,
                  price: Option<real>, photo: Option<string>)
    | DeleteVehicle(plate: string)
    | OpenRental(customer: string, vehicle: string, start: string, end: string,
                 amount: Option<real>, stamp: string)
    | CancelRental(id: string)
    | FinishRental(id: string)

  /** Runs one request against the store. */
  function Apply(s: Store, req: Request): Outcome {
    match req
    case RegisterCustomer(name, email, phone, now) => Customers.Register(s, name, email, phone, now)
    case DeleteCustomer(email) => Customers.Delete(s, email)
    case ChangePersonalData(original, name, phone, newEmail, now) =>
      Customers.ChangePersonalData(s, original, name, phone, newEmail, now)
    case RegisterVehicle(make, model, year, plate, price, photo) =>
      Vehicles.Register(s, make, model, year, plate, price, photo)
    case EditVehicle(plate, make, model, year, price, photo) =>
      Vehicles.Edit(s, plate, make, model, year, price, photo)
    case DeleteVehicle(plate) => Vehicles.Delete(s, plate)
    case OpenRental(customer, vehicle, start, end, amount, stamp) =>
      Rentals.Open(s, customer, vehicle, start, end, amount, stamp)
    case CancelRental(id) => Rentals.Cancel(s, id)
    case FinishRental(id) => Rentals.Finish(s, id)
  }

  /** Runs requests one after another, each on the store the previous one
      left, whether it succeeded or failed. No route deletes a rental, so
      every rental key survives the whole run. */
  function Run(s: Store, reqs: seq<Request>): (r: Store)
    ensures s.rentals.Keys <= r.rentals.Keys
    decreases |reqs|
  {
    if reqs == [] then s else Run(Apply(s, reqs[0]).after, reqs[1..])
  }
}
