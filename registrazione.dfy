/**
  `Registrazione`: the association of a user with an event. The event type is a
  parameter so that the event class can hold a list of its own registrations.
*/
module Registrazioni {
  import opened Wrappers
  import opened Errors
  import opened JavaInts
  import Utenti

  datatype Registrazione<H> = Registrazione(utente: Utenti.Utente, hackathon: H)

  /** The constructor `Registrazione(utente, hackathon)`: both references are required,
      the user checked first. */
  function NewRegistrazione<H>(utente: Option<Utenti.Utente>, hackathon: Option<H>)
    : (r: Result<Registrazione<H>, Error>)
    ensures utente.None? ==> r == Failure(IllegalArgument(Invalid(TheUser)))
    ensures utente.Some? && hackathon.None? ==> r == Failure(IllegalArgument(Invalid(TheEvent)))
    ensures r.Success? <==> utente.Some? && hackathon.Some?
    ensures r.Success? ==> r.value.utente == utente.value && r.value.hackathon == hackathon.value
  {
    if utente.None? then Failure(IllegalArgument(Invalid(TheUser)))
    else if hackathon.None? then Failure(IllegalArgument(Invalid(TheEvent)))
    else Success(Registrazione(utente.value, hackathon.value))
  }

  /** The key the event compares registrations by: the registered user's id. */
  function RegistrazioneUserKey<H>(r: Registrazione<H>): int {
    r.utente.id
  }

  /** `equals`: same user (by id) and same event (the event class keeps identity
      equality, so a reference comparison). */
  predicate Equals<H(==)>(a: Registrazione<H>, b: Registrazione<H>) {
    Utenti.Equals(a.utente, b.utente) && a.hackathon == b.hackathon
  }

  /** `hashCode`: `Objects.hash(utente, hackathon)`, i.e. `31 * (31 + h(utente)) + h(hackathon)`
      in 32-bit arithmetic; the event's identity hash is a parameter. */
  function HashCode<H>(r: Registrazione<H>, identityHash: H -> int): int {
    ToInt32(31 * ToInt32(31 + Utenti.HashCode(r.utente)) + identityHash(r.hackathon))
  }

  /** `hashCode` is consistent with `equals`, and `equals` is an equivalence that
      ignores everything about the user but its id. */
  lemma EqualsHashConsistent<H>(a: Registrazione<H>, b: Registrazione<H>, c: Registrazione<H>,
                                     identityHash: H -> int)
    ensures Equals(a, a)
    ensures Equals(a, b) ==> Equals(b, a) && HashCode(a, identityHash) == HashCode(b, identityHash)
    ensures Equals(a, b) && Equals(b, c) ==> Equals(a, c)
    ensures Equals(a, a.(utente := a.utente.(email := c.utente.email)))
  {
  }
}
