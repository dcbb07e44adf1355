/**
  `Team`: a named group of participants with the progress documents it uploaded.
  Both lists are changed in place; the capacity rules belong to the event.
*/
module Teams {
  import opened Wrappers
  import opened Errors
  import opened JavaStrings
  import opened Lists
  import opened Utenti
  import opened Documenti

  /** The constructor's guards: a positive id, then a name that is not blank. */
  function TeamArgsCheck(id: int, nome: Option<string>): (r: Outcome<Error>)
    ensures id <= 0 ==> r == Fail(IllegalArgument(Invalid(TeamId)))
    ensures id > 0 && (nome.None? || IsBlank(nome.value)) ==> r == Fail(IllegalArgument(Invalid(TeamName)))
    ensures r.Pass? <==> id > 0 && nome.Some? && !IsBlank(nome.value)
  {
    if id <= 0 then Fail(IllegalArgument(Invalid(TeamId)))
    else if nome.None? || IsBlank(nome.value) then Fail(IllegalArgument(Invalid(TeamName)))
    else Pass
  }

  /** The guard of `aggiungiMembro(u)`: null is an illegal argument, a member already
      present (same id) an illegal state. */
  function AddMemberCheck(membri: seq<Utente>, u: Option<Utente>): (r: Outcome<Error>)
    ensures u.None? ==> r == Fail(IllegalArgument(Invalid(TheUser)))
    ensures u.Some? && HasKey(membri, UtenteKey, u.value.id) ==> r == Fail(IllegalState(AlreadyPresent(TheMember)))
    ensures r.Pass? <==> u.Some? && !HasKey(membri, UtenteKey, u.value.id)
  {
    if u.None? then Fail(IllegalArgument(Invalid(TheUser)))
    else if HasKey(membri, UtenteKey, u.value.id) then Fail(IllegalState(AlreadyPresent(TheMember)))
    else Pass
  }

  /** The outcome of `aggiungiMembro(u, maxTeamSize)`: exceptions for a null user or a
      non-positive capacity, `false` for a full team or a member already present. */
  function AddMemberWithLimit(membri: seq<Utente>, u: Option<Utente>, maxTeamSize: int): (r: Result<bool, Error>)
    ensures u.None? ==> r == Failure(IllegalArgument(Invalid(TheUser)))
    ensures u.Some? && maxTeamSize <= 0 ==> r == Failure(IllegalArgument(Invalid(MaxTeamSize)))
    ensures r == Success(true) <==>
      (u.Some? && maxTeamSize > 0 && |membri| < maxTeamSize && !HasKey(membri, UtenteKey, u.value.id))
    ensures u.Some? && maxTeamSize > 0 ==> r.Success?
    ensures r == Success(false) <==>
      (u.Some? && maxTeamSize > 0 && (|membri| >= maxTeamSize || HasKey(membri, UtenteKey, u.value.id)))
    ensures r == Success(true) ==> |membri| + 1 <= maxTeamSize
  {
    if u.None? then Failure(IllegalArgument(Invalid(TheUser)))
    else if maxTeamSize <= 0 then Failure(IllegalArgument(Invalid(MaxTeamSize)))
    else if |membri| >= maxTeamSize then Success(false)
    else if HasKey(membri, UtenteKey, u.value.id) then Success(false)
    else Success(true)
  }

  /** `documenti.remove(documenti.size() - 1)` guarded by `isEmpty`. */
  function WithoutLast<T>(s: seq<T>): (r: seq<T>)
    ensures s == [] ==> r == []
    ensures s != [] ==> |r| == |s| - 1 && s == r + [s[|s| - 1]]
  {
    if s == [] then [] else s[..|s| - 1]
  }

  /** Removing the last document right after appending one gives the list back. */
  lemma WithoutLastUndoesAppend<T>(s: seq<T>, d: T)
    ensures WithoutLast(s + [d]) == s
  {
    assert (s + [d])[..|s|] == s;
  }

  class Team {
    const id: int
    const nome: string
    var membri: seq<Utente>
    var documenti: seq<Documento>

    /** The class invariant: the constructor's guards hold and no user is a member
        twice (both ways of adding a member check `contains` first). */
    predicate Valid()
      reads this
    {
      TeamArgsCheck(id, Some(nome)).Pass? && DistinctKeys(membri, UtenteKey)
    }

    /** `new Team(id, nome)` on arguments that pass the guards. */
    constructor (id: int, nome: string)
      requires TeamArgsCheck(id, Some(nome)).Pass?
      ensures this.id == id && this.nome == nome
      ensures membri == [] && documenti == []
      ensures Valid()
    {
      this.id := id;
      this.nome := nome;
      membri := [];
      documenti := [];
    }

    /** `new Team(id, nome)` with its exceptions. */
    static method Create(id: int, nome: Option<string>) returns (r: Result<Team, Error>)
      ensures r.Failure? <==> TeamArgsCheck(id, nome).Fail?
      ensures r.Failure? ==> r.error == TeamArgsCheck(id, nome).error
      ensures r.Success? ==>
        (fresh(r.value) && r.value.Valid() && r.value.id == id && r.value.nome == nome.value
         && r.value.membri == [] && r.value.documenti == [])
    {
      var check := TeamArgsCheck(id, nome);
      if check.Fail? {
        return Failure(check.error);
      }
      var t := new Team(id, nome.value);
      return Success(t);
    }

    /** `aggiungiMembro(u)`: appends a user who is not yet a member, or throws. */
    method AggiungiMembro(u: Option<Utente>) returns (r: Outcome<Error>)
      requires Valid()
      modifies this
      ensures Valid()
      ensures r == AddMemberCheck(old(membri), u)
      ensures membri == (if r.Pass? then old(membri) + [u.value] else old(membri))
      ensures documenti == old(documenti)
    {
      r := AddMemberCheck(membri, u);
      if r.Pass? {
        DistinctKeysAppend(membri, UtenteKey, u.value);
        membri := membri + [u.value];
      }
    }

    /** `aggiungiMembro(u, maxTeamSize)`: appends and answers `true` only when the team
        has room and `u` is new; a team within the capacity stays within it. */
    method AggiungiMembroConLimite(u: Option<Utente>, maxTeamSize: int) returns (r: Result<bool, Error>)
      requires Valid()
      modifies this
      ensures Valid()
      ensures r == AddMemberWithLimit(old(membri), u, maxTeamSize)
      ensures membri == (if r == Success(true) then old(membri) + [u.value] else old(membri))
      ensures |old(membri)| <= maxTeamSize ==> |membri| <= maxTeamSize
      ensures documenti == old(documenti)
    {
      r := AddMemberWithLimit(membri, u, maxTeamSize);
      if r == Success(true) {
        DistinctKeysAppend(membri, UtenteKey, u.value);
        membri := membri + [u.value];
      }
    }

    /** `caricaDocumento(d)`: appends exactly one document at the end. */
    method CaricaDocumento(d: Option<Documento>) returns (r: Outcome<Error>)
      requires Valid()
      modifies this
      ensures Valid()
      ensures r.Fail? <==> d.None?
      ensures r.Fail? ==> r.error == IllegalArgument(Invalid(TheDocument))
      ensures documenti == (if d.Some? then old(documenti) + [d.value] else old(documenti))
      ensures membri == old(membri)
    {
      if d.None? {
        return Fail(IllegalArgument(Invalid(TheDocument)));
      }
      documenti := documenti + [d.value];
      return Pass;
    }

    /** `rimuoviMembro(u)`: nothing on null, otherwise `List.remove` by id; afterwards
        `u` is no longer a member. */
    method RimuoviMembro(u: Option<Utente>)
      requires Valid()
      modifies this
      ensures Valid()
      ensures membri == (if u.None? then old(membri) else RemoveFirst(old(membri), UtenteKey, u.value.id))
      ensures u.Some? ==> !HasKey(membri, UtenteKey, u.value.id)
      ensures documenti == old(documenti)
    {
      if u.None? {
        return;
      }
      RemoveFirstDistinct(membri, UtenteKey, u.value.id);
      membri := RemoveFirst(membri, UtenteKey, u.value.id);
    }

    /** `rimuoviUltimoDocumento()`: the rollback of `caricaDocumento`. */
    method RimuoviUltimoDocumento()
      requires Valid()
      modifies this
      ensures Valid()
      ensures documenti == WithoutLast(old(documenti))
      ensures membri == old(membri)
    {
      if documenti == [] {
        return;
      }
      documenti := documenti[..|documenti| - 1];
    }
  }

  /** The key `equals` compares: two teams are the same team iff their ids agree. */
  function TeamKey(t: Team): int {
    t.id
  }

  /** `equals`: same id. */
  predicate Equals(a: Team, b: Team) {
    TeamKey(a) == TeamKey(b)
  }

  /** `hashCode`: `Integer.hashCode(id)`, the id itself. */
  function HashCode(t: Team): int {
    t.id
  }

  /** Two teams are equal exactly when their hash codes agree. */
  lemma EqualsIffSameHash(a: Team, b: Team)
    ensures Equals(a, b) <==> HashCode(a) == HashCode(b)
  {
  }
}
