/** The three tables of the rental back office (customers, vehicles and
    rentals) as immutable maps from row key to record, and the result every
    route produces.

    The table client is abstracted by four assumptions: creating an entity
    whose row key exists fails; reading a missing row key fails; updating a
    missing row key fails; deleting a missing row key succeeds and changes
    nothing. */
module Tables {

  /** An entity property that may be absent from a stored record. */
  datatype Option<+T> = None | Some(value: T) {

    /** The property's value, or `default` when it is absent (Python's `dict.get`). */
    function GetOr(default: T): T {
      match this
      case Some(v) => v
      case None => default
    }
  }

  /** The `Status` property of a rental. */
  datatype Status = Active | Cancelled | Finished {

    /** The text stored in the table. */
    function Label(): string {
      match this
      case Active => "Ativa"
      case Cancelled => "Cancelada"
      case Finished => "Finalizada"
    }
  }

  /** A row of the customer table (row key: the email). `registeredAt` is the
      `DataCadastro` timestamp, supplied by the caller. */
  datatype Customer = Customer(name: string, email: string, phone: string, registeredAt: string)

  /** A row of the vehicle table (row key: the plate). `price` is the parsed
      `Preco`; `photoUrl` and `available` (`FotoUrl`, `Disponivel`) may be absent
      from rows written by other tools, and the routes read them with
      different defaults. */
  datatype Vehicle = Vehicle(
    make: string,
    model: string,
    year: string,
    price: real,
    photoUrl: Option<string>,
    available: Option<bool>)

  /** A row of the rental table: the customer's email, the vehicle's plate,
      the start and end dates as entered, the parsed `Valor` and the status. */
  datatype Rental = Rental(
    customer: string,
    vehicle: string,
    start: string,
    end: string,
    amount: real,
    status: Status)

  datatype Store = Store(
    customers: map<string, Customer>,
    vehicles: map<string, Vehicle>,
    rentals: map<string, Rental>)

  datatype Error =
    | NotFound       // a read or update of a missing row key
    | DuplicateKey   // a create on an existing row key
    | InUse          // a delete refused because a rental references the key
    | BadNumber      // `float()` rejected the price or amount text
    | MissingField   // a personal-data form with an empty field
    | EmailInUse     // the new email already belongs to a customer

  /** What a route leaves behind. A failed route also carries the store,
      because the rental routes can fail after their first write. */
  datatype Outcome = Ok(after: Store) | Err(error: Error, after: Store)

  /** `m'` is `m` with key `k` written to `v` and every other key untouched. */
  ghost predicate UpdatedAt<V>(m: map<string, V>, m': map<string, V>, k: string, v: V) {
    && m'.Keys == m.Keys + {k}
    && m'[k] == v
    && forall j :: j in m && j != k ==> m'[j] == m[j]
  }

  /** `m'` is `m` without key `k`, every other key untouched. */
  ghost predicate RemovedAt<V>(m: map<string, V>, m': map<string, V>, k: string) {
    && m'.Keys == m.Keys - {k}
    && forall j :: j in m' ==> m'[j] == m[j]
  }

  /** The rentals whose `Cliente` is `email`: the query `Cliente eq '<email>'`. */
  function CustomerRentals(rentals: map<string, Rental>, email: string): (ks: set<string>)
    ensures forall k :: k in ks <==> k in rentals && rentals[k].customer == email
  {
    set k | k in rentals && rentals[k].customer == email
  }

  /** The rentals whose `Veiculo` is `plate`: the query `Veiculo eq '<plate>'`. */
  function VehicleRentals(rentals: map<string, Rental>, plate: string): (ks: set<string>)
    ensures forall k :: k in ks <==> k in rentals && rentals[k].vehicle == plate
  {
    set k | k in rentals && rentals[k].vehicle == plate
  }

  /** The plates counted as available by the dashboard and offered by the
      rental form: those whose `Disponivel` is true or absent. */
  function AvailablePlates(vehicles: map<string, Vehicle>): (ps: set<string>)
    ensures ps <= vehicles.Keys
    ensures forall p :: p in vehicles ==> (p in ps <==> vehicles[p].available != Some(false))
  {
    set p | p in vehicles && vehicles[p].available.GetOr(true)
  }

  /** Every rental names a customer and a vehicle that exist. The storage
      does not enforce this; the delete guards try to keep it. */
  ghost predicate ReferencesResolve(s: Store) {
    forall k :: k in s.rentals ==>
      s.rentals[k].customer in s.customers && s.rentals[k].vehicle in s.vehicles
  }
}
