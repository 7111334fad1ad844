/** The customer routes of app.py: registration and search (`clientes`),
    deletion (`excluir_cliente`) and the personal-data form with its email
    migration (`editar_dados_pessoais`). */
module Customers {
  import opened Tables
  import opened Text

  /** Registers a customer under its email; `now` is the registration
      timestamp. An email already in the table is refused. */
  function Register(s: Store, name: string, email: string, phone: string, now: string): (o: Outcome)
    ensures o.Err? <==> email in s.customers
    ensures o.Err? ==> o.error == DuplicateKey && o.after == s
    ensures o.Ok? ==> UpdatedAt(s.customers, o.after.customers, email, Customer(name, email, phone, now))
    ensures o.after.vehicles == s.vehicles && o.after.rentals == s.rentals
  {
    if email in s.customers then Err(DuplicateKey, s)
    else Ok(s.(customers := s.customers[email := Customer(name, email, phone, now)]))
  }

  /** A freshly registered customer can be read back, and registering the
      same email again fails with the store unchanged. */
  lemma RegisterThenRead(s: Store, name: string, email: string, phone: string, now: string,
                         name2: string, phone2: string, now2: string)
    requires Register(s, name, email, phone, now).Ok?
    ensures var s1 := Register(s, name, email, phone, now).after;
      && email in s1.customers
      && s1.customers[email] == Customer(name, email, phone, now)
      && Register(s1, name2, email, phone2, now2) == Err(DuplicateKey, s1)
  {
  }

  /** The search term matches a customer's name or stored email, ignoring case. */
  predicate MatchesTerm(c: Customer, term: string) {
    ContainsIgnoringCase(c.name, term) || ContainsIgnoringCase(c.email, term)
  }

  /** The customer list: everything for an empty term, otherwise the customers
      whose lower-cased name or email contains the lower-cased term. */
  function Search(customers: map<string, Customer>, term: string): (r: map<string, Customer>)
    ensures forall k :: k in r ==> k in customers && r[k] == customers[k]
    ensures forall k :: k in customers ==>
      (k in r <==> term == "" || IsSubstring(Lower(term), Lower(customers[k].name))
                              || IsSubstring(Lower(term), Lower(customers[k].email)))
  {
    if term == "" then customers
    else map k | k in customers && MatchesTerm(customers[k], term) :: customers[k]
  }

  /** Lengthening the search term never brings back a customer the shorter
      term left out: whatever a term containing `shorter` matches, `shorter`
      matches too. */
  lemma SearchNarrows(customers: map<string, Customer>, shorter: string, longer: string)
    requires ContainsIgnoringCase(longer, shorter)
    ensures Search(customers, longer).Keys <= Search(customers, shorter).Keys
  {
    if shorter != "" {
      forall k | k in Search(customers, longer)
        ensures k in Search(customers, shorter)
      {
        var c := customers[k];
        assert longer != "";
        assert MatchesTerm(c, longer);
        if ContainsIgnoringCase(c.name, longer) {
          ContainsIgnoringCaseTransitive(c.name, longer, shorter);
        } else {
          ContainsIgnoringCaseTransitive(c.email, longer, shorter);
        }
      }
    }
  }

  /** Searching for a customer's own name, in any case, finds that customer. */
  lemma SearchFindsByName(customers: map<string, Customer>, k: string, term: string)
    requires k in customers && Lower(term) == Lower(customers[k].name)
    ensures k in Search(customers, term)
  {
    if term != "" {
      assert OccursAt(Lower(term), Lower(customers[k].name), 0);
    }
  }

  /** The case of the term does not matter: searching for its lower-case
      spelling returns the same customers. */
  lemma SearchIgnoresTermCase(customers: map<string, Customer>, term: string)
    ensures Search(customers, Lower(term)) == Search(customers, term)
  {
    LowerIdempotent(term);
    assert Lower(term) == "" <==> term == "";
  }

  /** A term written exactly as it appears in a customer's name or email
      finds that customer. */
  lemma SearchFindsBySubstring(customers: map<string, Customer>, k: string, term: string)
    requires k in customers
    requires Contains(customers[k].name, term) || Contains(customers[k].email, term)
    ensures k in Search(customers, term)
  {
    if Contains(customers[k].name, term) {
      LowerKeepsOccurrence(customers[k].name, term);
    } else {
      LowerKeepsOccurrence(customers[k].email, term);
    }
  }

  /** Accented capitals fold like Python's: a customer named "ÉRICA" is found
      by the term "érica". */
  lemma SearchFoldsAccents(customers: map<string, Customer>, k: string)
    requires k in customers && customers[k].name == "\U{00C9}RICA"
    ensures k in Search(customers, "\U{00E9}rica")
  {
    assert Lower("\U{00C9}RICA") == Lower("\U{00E9}rica");
    ContainsIgnoringCaseReflexive("\U{00C9}RICA");
  }

  /** Deletes a customer, refused while any rental (of any status) names its
      email. Deleting an email that is not in the table changes nothing. */
  function Delete(s: Store, email: string): (o: Outcome)
    ensures o.Err? <==> exists k :: k in s.rentals && s.rentals[k].customer == email
    ensures o.Err? ==> o.error == InUse && o.after == s
    ensures o.Ok? ==> RemovedAt(s.customers, o.after.customers, email) && email !in o.after.customers
    ensures o.after.vehicles == s.vehicles && o.after.rentals == s.rentals
  {
    if CustomerRentals(s.rentals, email) != {} then Err(InUse, s)
    else Ok(s.(customers := s.customers - {email}))
  }

  /** Every rental of `from` now names `to`; the others are untouched. */
  function Repoint(rentals: map<string, Rental>, from: string, to: string): (r: map<string, Rental>)
    ensures r.Keys == rentals.Keys
    ensures forall k :: k in rentals && rentals[k].customer == from ==>
      r[k] == rentals[k].(customer := to)
    ensures forall k :: k in rentals && rentals[k].customer != from ==> r[k] == rentals[k]
  {
    map k | k in rentals :: if rentals[k].customer == from then rentals[k].(customer := to) else rentals[k]
  }

  /** The route's loop: query the rentals of `from`, then rewrite them one
      at a time. It ends in the same table as `Repoint`. */
  method RepointLoop(rentals: map<string, Rental>, from: string, to: string)
    returns (r: map<string, Rental>)
    ensures r == Repoint(rentals, from, to)
  {
    var matching := CustomerRentals(rentals, from);
    var todo := matching;
    r := rentals;
    while todo != {}
      invariant todo <= matching
      invariant r.Keys == rentals.Keys
      invariant forall k :: k in r ==>
        r[k] == if k in matching && k !in todo then rentals[k].(customer := to) else rentals[k]
      decreases todo
    {
      var k :| k in todo;
      r := r[k := rentals[k].(customer := to)];
      todo := todo - {k};
    }
  }

  /** After repointing, `to` holds its own rentals plus those of `from`, and
      `from` holds none. */
  lemma RepointMovesHistory(rentals: map<string, Rental>, from: string, to: string)
    requires from != to
    ensures CustomerRentals(Repoint(rentals, from, to), to)
         == CustomerRentals(rentals, from) + CustomerRentals(rentals, to)
    ensures CustomerRentals(Repoint(rentals, from, to), from) == {}
  {
    var r := Repoint(rentals, from, to);
    assert CustomerRentals(r, to) == CustomerRentals(rentals, from) + CustomerRentals(rentals, to) by {
      forall k ensures k in CustomerRentals(r, to) <==> k in CustomerRentals(rentals, from) + CustomerRentals(rentals, to) {
        if k in rentals {
          if rentals[k].customer == from {
            assert r[k].customer == to;
          } else {
            assert r[k] == rentals[k];
          }
        }
      }
    }
    assert CustomerRentals(r, from) == {} by {
      forall k | k in r
        ensures r[k].customer != from
      {
        if rentals[k].customer == from {
          assert r[k].customer == to;
        }
      }
    }
  }

  /** True when the personal-data form has all four fields filled in. */
  predicate Filled(original: string, name: string, phone: string, newEmail: string) {
    original != "" && name != "" && phone != "" && newEmail != ""
  }

  /** The save branch of the personal-data form. With an unchanged email it
      updates name and phone in place (the registration date is kept). With a
      new email it writes a new customer record, repoints every rental of the
      old email to the new one and deletes the old record. */
  function ChangePersonalData(s: Store, original: string, name: string, phone: string,
                              newEmail: string, now: string): (o: Outcome)
    ensures !Filled(original, name, phone, newEmail) ==> o == Err(MissingField, s)
    ensures Filled(original, name, phone, newEmail) && newEmail != original ==>
      && (newEmail in s.customers ==> o == Err(EmailInUse, s))
      && (newEmail !in s.customers ==>
            && o.Ok?
            && o.after.customers.Keys == s.customers.Keys + {newEmail} - {original}
            && o.after.customers[newEmail] == Customer(name, newEmail, phone, now)
            && (forall e :: e in s.customers && e != original ==> o.after.customers[e] == s.customers[e])
            && o.after.rentals.Keys == s.rentals.Keys
            && (forall k :: k in s.rentals && s.rentals[k].customer == original ==>
                  o.after.rentals[k] == s.rentals[k].(customer := newEmail))
            && (forall k :: k in s.rentals && s.rentals[k].customer != original ==>
                  o.after.rentals[k] == s.rentals[k]))
    ensures Filled(original, name, phone, newEmail) && newEmail == original ==>
      && (original !in s.customers ==> o == Err(NotFound, s))
      && (original in s.customers ==>
            && o.Ok?
            && UpdatedAt(s.customers, o.after.customers, original,
                         s.customers[original].(name := name, email := original, phone := phone))
            && o.after.customers[original].registeredAt == s.customers[original].registeredAt
            && o.after.rentals == s.rentals)
    ensures o.after.vehicles == s.vehicles
  {
    if !Filled(original, name, phone, newEmail) then Err(MissingField, s)
    else if newEmail != original then
      if newEmail in s.customers then Err(EmailInUse, s)
      else
        var created := s.customers[newEmail := Customer(name, newEmail, phone, now)];
        Ok(Store(created - {original}, s.vehicles, Repoint(s.rentals, original, newEmail)))
    else if original !in s.customers then Err(NotFound, s)
    else
      var c := s.customers[original];
      Ok(s.(customers := s.customers[original := c.(name := name, email := original, phone := phone)]))
  }

  /** In a store whose references resolve, an email change hands the new
      email exactly the old email's rental history, and leaves the old email
      with none. */
  lemma ChangeEmailMovesHistory(s: Store, original: string, name: string, phone: string,
                                newEmail: string, now: string)
    requires ReferencesResolve(s)
    requires newEmail != original
    requires ChangePersonalData(s, original, name, phone, newEmail, now).Ok?
    ensures var after := ChangePersonalData(s, original, name, phone, newEmail, now).after;
      && CustomerRentals(after.rentals, newEmail) == CustomerRentals(s.rentals, original)
      && CustomerRentals(after.rentals, original) == {}
  {
    assert CustomerRentals(s.rentals, newEmail) == {};
    RepointMovesHistory(s.rentals, original, newEmail);
  }

  /** The personal-data form keeps every rental's customer and vehicle
      resolvable, whatever branch it takes. */
  lemma ChangePersonalDataKeepsReferences(s: Store, original: string, name: string, phone: string,
                                          newEmail: string, now: string)
    requires ReferencesResolve(s)
    ensures ReferencesResolve(ChangePersonalData(s, original, name, phone, newEmail, now).after)
  {
    var o := ChangePersonalData(s, original, name, phone, newEmail, now);
    if o.Ok? && newEmail != original {
      forall k | k in o.after.rentals
        ensures o.after.rentals[k].customer in o.after.customers
      {
        if s.rentals[k].customer == original {
          assert o.after.rentals[k].customer == newEmail;
        } else {
          assert o.after.rentals[k] == s.rentals[k];
        }
      }
    }
  }

  /** The delete guard keeps every rental's customer resolvable. */
  lemma DeleteKeepsReferences(s: Store, email: string)
    requires ReferencesResolve(s)
    ensures ReferencesResolve(Delete(s, email).after)
  {
    var o := Delete(s, email);
    if o.Ok? {
      forall k | k in o.after.rentals
        ensures o.after.rentals[k].customer in o.after.customers
      {
        assert k !in CustomerRentals(s.rentals, email);
      }
    }
  }
}
