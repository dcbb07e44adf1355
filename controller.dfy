/**
  `Controller`: the orchestration layer over one `Hackathon`. It adds the
  organiser's two switches (registrations open, uploads enabled), the cap of
  three judges, the minimum of three judges and three teams for the contest,
  the final votes and the points each uploaded document earned. Every write
  follows the sequence change the model, persist, undo the change when
  persisting fails; a persistence outcome is an input `persistOk`.
*/
module HackathonController {
  import opened Wrappers
  import opened Errors
  import opened Lists
  import opened Utenti
  import opened Organizzatori
  import opened Documenti
  import opened Teams
  import opened Registrazioni
  import opened Voti
  import opened Hackathons
  import opened Punteggi

  const MAX_GIUDICI: int := 3
  const MIN_TEAM_PER_INIZIARE_GARA: int := 3

  /** What a date synchronisation does to a switch: it may only turn it off, when
      the date is outside the period the switch is about. */
  function SyncFlag(flag: bool, allowed: bool): bool {
    flag && allowed
  }

  /** Synchronising never turns a switch on, and a second synchronisation on the
      same date changes nothing. */
  lemma SyncFlagFacts(flag: bool, allowed: bool)
    ensures SyncFlag(flag, allowed) ==> flag
    ensures SyncFlag(SyncFlag(flag, allowed), allowed) == SyncFlag(flag, allowed)
    ensures allowed ==> SyncFlag(flag, allowed) == flag
  {
  }

  /** The largest team id of the list, or 0 for an empty list. */
  function MaxTeamId(ts: seq<Team>): (r: int)
    ensures r >= 0
    ensures forall k | 0 <= k < |ts| :: ts[k].id <= r
    ensures r == 0 || exists k | 0 <= k < |ts| :: ts[k].id == r
  {
    if |ts| == 0 then 0
    else
      var m := MaxTeamId(ts[..|ts| - 1]);
      var last := ts[|ts| - 1].id;
      if last > m then last else m
  }

  class Controller {
    var hackathon: Hackathon?
    var registrazioniAperte: bool
    var invioDocumentiAbilitato: bool
    var votiFinali: seq<Voto>
    /** The points of each uploaded document, per team id (the source keys its map by
        `Team`, whose `equals` and `hashCode` are those of the id). */
    var punteggiDocumenti: map<int, seq<int>>

    /** The teams of the current event, the objects the event's invariant reads. */
    function EventTeams(): seq<Team>
      reads this, hackathon
    {
      if hackathon == null then [] else hackathon.teams
    }

    /** The invariant: a valid event whose team members are registered and in one
        team each, at most one final vote per (judge, team) pair, and document
        points on the 1..10 scale. */
    ghost predicate Valid()
      reads this, hackathon, EventTeams()
    {
      && (hackathon != null ==>
            hackathon.Valid() && hackathon.MembersRegistered() && Exclusive(hackathon.teams))
      && DistinctKeys(votiFinali, VotoPairKey)
      && (forall id | id in punteggiDocumenti :: AllWithin(punteggiDocumenti[id], 1, 10))
    }

    constructor ()
      ensures hackathon == null && !registrazioniAperte && !invioDocumentiAbilitato
      ensures votiFinali == [] && punteggiDocumenti == map[]
      ensures Valid()
    {
      hackathon := null;
      registrazioniAperte := false;
      invioDocumentiAbilitato := false;
      votiFinali := [];
      punteggiDocumenti := map[];
    }

    /** `creaHackathon`: replaces the event with a new, empty one when the arguments
        pass its checks. The switches, votes and points are left as they were. */
    method CreaHackathon(titolo: Option<string>, sede: Option<string>, inizio: int, fine: int,
                         maxPartecipanti: int, maxTeamSize: int, organizzatore: Option<Organizzatore>)
      returns (r: Outcome<Error>)
      requires Valid()
      modifies this
      ensures Valid()
      ensures r == EventArgsCheck(titolo, sede, inizio, fine, maxTeamSize, organizzatore)
      ensures r.Fail? ==> hackathon == old(hackathon)
      ensures r.Pass? ==>
        (fresh(hackathon) && hackathon.titolo == titolo.value && hackathon.sede == sede.value
         && hackathon.organizzatore == organizzatore.value
         && hackathon.dataInizio == inizio && hackathon.dataFine == fine
         && hackathon.maxTeamSize == maxTeamSize && hackathon.giudici == [] && hackathon.registrazioni == []
         && hackathon.teams == [] && hackathon.descrizioneProblema == None)
      ensures registrazioniAperte == old(registrazioniAperte) && invioDocumentiAbilitato == old(invioDocumentiAbilitato)
      ensures votiFinali == old(votiFinali) && punteggiDocumenti == old(punteggiDocumenti)
    {
      var created := Hackathon.Create(titolo, sede, inizio, fine, maxPartecipanti, maxTeamSize, organizzatore);
      if created.Failure? {
        return Fail(created.error);
      }
      hackathon := created.value;
      return Pass;
    }

    /** `requireMinGiudici` then `requireMinTeam`. */
    function MinimumsCheck(): (r: Option<Error>)
      requires hackathon != null
      reads this, hackathon
      ensures r == None <==> |hackathon.giudici| >= MAX_GIUDICI && |hackathon.teams| >= MIN_TEAM_PER_INIZIARE_GARA
    {
      if |hackathon.giudici| < MAX_GIUDICI then Some(IllegalState(TooFewJudges))
      else if |hackathon.teams| < MIN_TEAM_PER_INIZIARE_GARA then Some(IllegalState(TooFewTeams))
      else None
    }

    // -------------------------------------------------------------------------
    // The organiser's switches.
    // -------------------------------------------------------------------------

    /** `syncRegistrazioniConData`: outside the registration window the switch is
        turned off; it is never turned on. */
    method SyncRegistrazioniConData(oggi: int) returns (r: Outcome<Error>)
      requires Valid()
      modifies this
      ensures Valid()
      ensures r == (if hackathon == null then Fail(IllegalState(NotInitialized)) else Pass)
      ensures registrazioniAperte ==
        (if hackathon == null then old(registrazioniAperte)
         else SyncFlag(old(registrazioniAperte), hackathon.IsRegistrazioneConsentita(oggi)))
      ensures hackathon == old(hackathon) && invioDocumentiAbilitato == old(invioDocumentiAbilitato)
      ensures votiFinali == old(votiFinali) && punteggiDocumenti == old(punteggiDocumenti)
    {
      if hackathon == null {
        return Fail(IllegalState(NotInitialized));
      }
      if !hackathon.IsRegistrazioneConsentita(oggi) {
        registrazioniAperte := false;
      }
      return Pass;
    }

    /** `syncInvioDocumentiConData`: outside the event days the upload switch is
        turned off; it is never turned on. */
    method SyncInvioDocumentiConData(oggi: int) returns (r: Outcome<Error>)
      requires Valid()
      modifies this
      ensures Valid()
      ensures r == (if hackathon == null then Fail(IllegalState(NotInitialized)) else Pass)
      ensures invioDocumentiAbilitato ==
        (if hackathon == null then old(invioDocumentiAbilitato)
         else SyncFlag(old(invioDocumentiAbilitato), hackathon.IsDuranteHackathon(oggi)))
      ensures hackathon == old(hackathon) && registrazioniAperte == old(registrazioniAperte)
      ensures votiFinali == old(votiFinali) && punteggiDocumenti == old(punteggiDocumenti)
    {
      if hackathon == null {
        return Fail(IllegalState(NotInitialized));
      }
      if !hackathon.IsDuranteHackathon(oggi) {
        invioDocumentiAbilitato := false;
      }
      return Pass;
    }

    /** The guards of `apriRegistrazioni`, in source order. */
    function OpenRegistrationsCheck(oggi: int): (r: Outcome<Error>)
      reads this, hackathon
      ensures r.Pass? <==>
        hackathon != null && |hackathon.giudici| >= MAX_GIUDICI && hackathon.IsRegistrazioneConsentita(oggi)
    {
      if hackathon == null then Fail(IllegalState(NotInitialized))
      else if |hackathon.giudici| < MAX_GIUDICI then Fail(IllegalState(TooFewJudgesToOpen))
      else if !hackathon.IsRegistrazioneConsentita(oggi) then Fail(IllegalState(OutsideRegistrationWindow))
      else Pass
    }

    /** `apriRegistrazioni`: synchronises the switch with the date, then turns it on
        only with three judges and inside the registration window. */
    method ApriRegistrazioni(oggi: int) returns (r: Outcome<Error>)
      requires Valid()
      modifies this
      ensures Valid()
      ensures r == OpenRegistrationsCheck(oggi)
      ensures r.Pass? ==> registrazioniAperte
      ensures r.Fail? && hackathon != null ==>
        registrazioniAperte == SyncFlag(old(registrazioniAperte), hackathon.IsRegistrazioneConsentita(oggi))
      ensures hackathon == null ==> registrazioniAperte == old(registrazioniAperte)
      ensures registrazioniAperte && !old(registrazioniAperte) ==>
        hackathon != null && |hackathon.giudici| >= MAX_GIUDICI && hackathon.IsRegistrazioneConsentita(oggi)
      ensures hackathon == old(hackathon) && invioDocumentiAbilitato == old(invioDocumentiAbilitato)
      ensures votiFinali == old(votiFinali) && punteggiDocumenti == old(punteggiDocumenti)
    {
      if hackathon == null {
        return Fail(IllegalState(NotInitialized));
      }
      var synced := SyncRegistrazioniConData(oggi);
      if |hackathon.giudici| < MAX_GIUDICI {
        return Fail(IllegalState(TooFewJudgesToOpen));
      }
      if !hackathon.IsRegistrazioneConsentita(oggi) {
        return Fail(IllegalState(OutsideRegistrationWindow));
      }
      registrazioniAperte := true;
      return Pass;
    }

    /** `chiudiRegistrazioni`. */
    method ChiudiRegistrazioni()
      requires Valid()
      modifies this
      ensures Valid()
      ensures !registrazioniAperte
      ensures hackathon == old(hackathon) && invioDocumentiAbilitato == old(invioDocumentiAbilitato)
      ensures votiFinali == old(votiFinali) && punteggiDocumenti == old(punteggiDocumenti)
    {
      registrazioniAperte := false;
    }

    /** The guards of `abilitaInvioDocumenti`, in source order. */
    function EnableUploadsCheck(oggi: int): (r: Outcome<Error>)
      reads this, hackathon
      ensures r.Pass? <==>
        (hackathon != null && hackathon.IsDuranteHackathon(oggi)
         && |hackathon.giudici| >= MAX_GIUDICI && |hackathon.teams| >= MIN_TEAM_PER_INIZIARE_GARA)
    {
      if hackathon == null then Fail(IllegalState(NotInitialized))
      else if !hackathon.IsDuranteHackathon(oggi) then Fail(IllegalState(OutsideEventDays))
      else match MinimumsCheck()
        case Some(e) => Fail(e)
        case None => Pass
    }

    /** `abilitaInvioDocumenti`: turns uploads on only during the event, with three
        judges and three teams. */
    method AbilitaInvioDocumenti(oggi: int) returns (r: Outcome<Error>)
      requires Valid()
      modifies this
      ensures Valid()
      ensures r == EnableUploadsCheck(oggi)
      ensures r.Pass? ==> invioDocumentiAbilitato
      ensures r.Fail? && hackathon != null ==>
        invioDocumentiAbilitato == SyncFlag(old(invioDocumentiAbilitato), hackathon.IsDuranteHackathon(oggi))
      ensures hackathon == null ==> invioDocumentiAbilitato == old(invioDocumentiAbilitato)
      ensures invioDocumentiAbilitato && !old(invioDocumentiAbilitato) ==>
        (hackathon != null && hackathon.IsDuranteHackathon(oggi)
         && |hackathon.giudici| >= MAX_GIUDICI && |hackathon.teams| >= MIN_TEAM_PER_INIZIARE_GARA)
      ensures hackathon == old(hackathon) && registrazioniAperte == old(registrazioniAperte)
      ensures votiFinali == old(votiFinali) && punteggiDocumenti == old(punteggiDocumenti)
    {
      if hackathon == null {
        return Fail(IllegalState(NotInitialized));
      }
      var synced := SyncInvioDocumentiConData(oggi);
      if !hackathon.IsDuranteHackathon(oggi) {
        return Fail(IllegalState(OutsideEventDays));
      }
      var minimums := MinimumsCheck();
      if minimums.Some? {
        return Fail(minimums.value);
      }
      invioDocumentiAbilitato := true;
      return Pass;
    }

    /** `disabilitaInvioDocumenti`. */
    method DisabilitaInvioDocumenti()
      requires Valid()
      modifies this
      ensures Valid()
      ensures !invioDocumentiAbilitato
      ensures hackathon == old(hackathon) && registrazioniAperte == old(registrazioniAperte)
      ensures votiFinali == old(votiFinali) && punteggiDocumenti == old(punteggiDocumenti)
    {
      invioDocumentiAbilitato := false;
    }

    // -------------------------------------------------------------------------
    // Judges.
    // -------------------------------------------------------------------------

    /** `canAddJudge`: fewer than three judges. */
    method CanAddJudge() returns (r: Result<bool, Error>)
      ensures hackathon == null <==> r == Failure(IllegalState(NotInitialized))
      ensures hackathon != null ==> r == Success(|hackathon.giudici| < MAX_GIUDICI)
    {
      if hackathon == null {
        return Failure(IllegalState(NotInitialized));
      }
      return Success(|hackathon.giudici| < MAX_GIUDICI);
    }

    /** The outcome of `aggiungiGiudice`, in source order. */
    function AddJudgeCheck(g: Option<Utente>, persistOk: bool): (r: Outcome<Error>)
      reads this, hackathon
      ensures r.Pass? <==>
        (hackathon != null && |hackathon.giudici| < MAX_GIUDICI && g.Some?
         && !HasKey(hackathon.giudici, UtenteKey, g.value.id) && persistOk)
    {
      if hackathon == null then Fail(IllegalState(NotInitialized))
      else if |hackathon.giudici| >= MAX_GIUDICI then Fail(IllegalState(TooManyJudges))
      else if g.None? then Fail(IllegalArgument(Invalid(TheJudge)))
      else if HasKey(hackathon.giudici, UtenteKey, g.value.id) then Fail(IllegalState(AlreadyPresent(TheJudge)))
      else if !persistOk then Fail(Persistence)
      else Pass
    }

    /** `aggiungiGiudice`: adds the judge, persists, and removes it again when
        persisting fails. The judges never exceed three. */
    method AggiungiGiudice(g: Option<Utente>, persistOk: bool) returns (r: Outcome<Error>)
      requires Valid()
      modifies hackathon
      ensures Valid()
      ensures r == old(AddJudgeCheck(g, persistOk))
      ensures hackathon != null ==>
        hackathon.giudici == (if r.Pass? then old(hackathon.giudici) + [g.value] else old(hackathon.giudici))
      ensures hackathon != null ==> (|old(hackathon.giudici)| <= MAX_GIUDICI ==> |hackathon.giudici| <= MAX_GIUDICI)
      ensures hackathon != null ==>
        hackathon.registrazioni == old(hackathon.registrazioni) && hackathon.teams == old(hackathon.teams)
      ensures hackathon != null ==> hackathon.descrizioneProblema == old(hackathon.descrizioneProblema)
    {
      if hackathon == null {
        return Fail(IllegalState(NotInitialized));
      }
      if |hackathon.giudici| >= MAX_GIUDICI {
        return Fail(IllegalState(TooManyJudges));
      }
      var before := hackathon.giudici;
      r := hackathon.AggiungiGiudice(g);
      if r.Fail? {
        return;
      }
      if !persistOk {
        hackathon.RimuoviGiudice(g);
        RemoveFirstSplit(before, g.value, [], UtenteKey);
        assert before + [g.value] + [] == before + [g.value];
        return Fail(Persistence);
      }
    }

    /** The outcome of `eliminaGiudicePerId`, in source order. */
    function RemoveJudgeCheck(id: int, persistOk: bool): (r: Outcome<Error>)
      reads this, hackathon
      ensures r.Pass? <==>
        hackathon != null && id > 0 && HasKey(hackathon.giudici, UtenteKey, id) && persistOk
    {
      if hackathon == null then Fail(IllegalState(NotInitialized))
      else if id <= 0 then Fail(IllegalArgument(Invalid(JudgeId)))
      else if !HasKey(hackathon.giudici, UtenteKey, id) then Fail(IllegalState(NotFound(TheJudge)))
      else if !persistOk then Fail(Persistence)
      else Pass
    }

    /** `eliminaGiudicePerId`: removes the judge and every final vote the judge gave. */
    method EliminaGiudicePerId(id: int, persistOk: bool) returns (r: Outcome<Error>)
      requires Valid()
      modifies this, hackathon
      ensures Valid()
      ensures r == old(RemoveJudgeCheck(id, persistOk))
      ensures hackathon == old(hackathon)
      ensures hackathon != null ==>
        hackathon.giudici == (if r.Pass? then RemoveFirst(old(hackathon.giudici), UtenteKey, id)
                              else old(hackathon.giudici))
      ensures votiFinali == (if r.Pass? then RemoveAll(old(votiFinali), VotoJudgeKey, id) else old(votiFinali))
      ensures r.Pass? ==> !HasKey(hackathon.giudici, UtenteKey, id) && !HasKey(votiFinali, VotoJudgeKey, id)
      ensures hackathon != null ==>
        hackathon.registrazioni == old(hackathon.registrazioni) && hackathon.teams == old(hackathon.teams)
      ensures hackathon != null ==> hackathon.descrizioneProblema == old(hackathon.descrizioneProblema)
      ensures registrazioniAperte == old(registrazioniAperte) && invioDocumentiAbilitato == old(invioDocumentiAbilitato)
      ensures punteggiDocumenti == old(punteggiDocumenti)
    {
      if hackathon == null {
        return Fail(IllegalState(NotInitialized));
      }
      if id <= 0 {
        return Fail(IllegalArgument(Invalid(JudgeId)));
      }
      var i := 0;
      while i < |hackathon.giudici| && hackathon.giudici[i].id != id
        invariant 0 <= i <= |hackathon.giudici|
        invariant forall k | 0 <= k < i :: hackathon.giudici[k].id != id
      {
        i := i + 1;
      }
      if i == |hackathon.giudici| {
        return Fail(IllegalState(NotFound(TheJudge)));
      }
      var target := hackathon.giudici[i];
      if !persistOk {
        return Fail(Persistence);
      }
      hackathon.RimuoviGiudice(Some(target));
      RemoveAllKeepsPairs(votiFinali, id);
      votiFinali := RemoveAll(votiFinali, VotoJudgeKey, id);
      r := Pass;
    }

    // -------------------------------------------------------------------------
    // Participants.
    // -------------------------------------------------------------------------

    /** The outcome of `registraUtente`, in source order. */
    function RegisterUserCheck(u: Option<Utente>, oggi: int, persistOk: bool): (r: Outcome<Error>)
      reads this, hackathon
      ensures r.Pass? <==>
        (hackathon != null && registrazioniAperte && hackathon.RegistrationCheck(u, oggi).Pass? && persistOk)
    {
      if hackathon == null then Fail(IllegalState(NotInitialized))
      else if !registrazioniAperte then Fail(IllegalState(RegistrationsNotOpen))
      else if hackathon.RegistrationCheck(u, oggi).Fail? then hackathon.RegistrationCheck(u, oggi)
      else if !persistOk then Fail(Persistence)
      else Pass
    }

    /** `registraUtente`: registers the user while the organiser keeps registrations
        open, persists, and removes the registration again when persisting fails. */
    method RegistraUtente(u: Option<Utente>, oggi: int, persistOk: bool) returns (r: Outcome<Error>)
      requires Valid()
      modifies hackathon
      ensures Valid()
      ensures r == old(RegisterUserCheck(u, oggi, persistOk))
      ensures hackathon != null ==>
        hackathon.registrazioni ==
          (if r.Pass? then old(hackathon.registrazioni) + [Registrazione(u.value, hackathon)]
           else old(hackathon.registrazioni))
      ensures hackathon != null ==>
        hackathon.giudici == old(hackathon.giudici) && hackathon.teams == old(hackathon.teams)
      ensures hackathon != null ==> hackathon.descrizioneProblema == old(hackathon.descrizioneProblema)
    {
      if hackathon == null {
        return Fail(IllegalState(NotInitialized));
      }
      if !registrazioniAperte {
        return Fail(IllegalState(RegistrationsNotOpen));
      }
      var before := hackathon.registrazioni;
      assert forall t, id | t in hackathon.teams && InTeam(t, id) :: HasKey(before, RegistrazioneUserKey, id) by {
        assert hackathon.MembersRegistered();
      }
      r := hackathon.RegistraUtente(u, oggi);
      if r.Fail? {
        return;
      }
      if !persistOk {
        AnnullaRegistrazione(u.value, before);
        return Fail(Persistence);
      }
    }

    /** The rollback of `registraUtente` when persisting fails: the registration just
        appended is removed, and no team can hold the user, who was not registered. */
    method AnnullaRegistrazione(u: Utente, ghost before: seq<Registrazione<Hackathon>>)
      requires Valid() && hackathon != null
      requires hackathon.registrazioni == before + [Registrazione(u, hackathon)]
      requires !HasKey(before, RegistrazioneUserKey, u.id)
      requires forall t, id | t in hackathon.teams && InTeam(t, id) :: HasKey(before, RegistrazioneUserKey, id)
      modifies hackathon
      ensures Valid()
      ensures hackathon.registrazioni == before
      ensures hackathon.giudici == old(hackathon.giudici) && hackathon.teams == old(hackathon.teams)
      ensures hackathon.descrizioneProblema == old(hackathon.descrizioneProblema)
    {
      assert forall t | t in hackathon.teams :: !InTeam(t, u.id);
      hackathon.RimuoviRegistrazione(Some(u));
      RemoveAllAppended(before, Registrazione(u, hackathon), RegistrazioneUserKey);
    }

    /** The outcome of `eliminaUtentePerId`, in source order. */
    function RemoveUserCheck(id: int, persistOk: bool): (r: Outcome<Error>)
      reads this, hackathon
      ensures r.Pass? <==>
        hackathon != null && id > 0 && HasKey(hackathon.registrazioni, RegistrazioneUserKey, id) && persistOk
    {
      if hackathon == null then Fail(IllegalState(NotInitialized))
      else if id <= 0 then Fail(IllegalArgument(Invalid(UserId)))
      else if !HasKey(hackathon.registrazioni, RegistrazioneUserKey, id) then Fail(IllegalState(NotFound(TheUser)))
      else if !persistOk then Fail(Persistence)
      else Pass
    }

    /** `eliminaUtentePerId`: deletes the registered user, takes the user out of every
        team, drops the teams left without members and removes the registration. */
    method EliminaUtentePerId(id: int, persistOk: bool) returns (r: Outcome<Error>)
      requires Valid()
      modifies hackathon, EventTeams()
      ensures Valid()
      ensures r == old(RemoveUserCheck(id, persistOk))
      ensures r.Fail? && hackathon != null ==> unchanged(hackathon)
      ensures hackathon != null ==> hackathon.descrizioneProblema == old(hackathon.descrizioneProblema)
      ensures forall t | t in old(EventTeams()) ::
        t.membri == (if r.Pass? then RemoveFirst(old(t.membri), UtenteKey, id) else old(t.membri))
        && t.documenti == old(t.documenti)
      ensures r.Pass? ==>
        hackathon != null
        && hackathon.teams == old(Survivors(hackathon.teams, id))
        && hackathon.registrazioni == old(RemoveAll(hackathon.registrazioni, RegistrazioneUserKey, id))
        && hackathon.giudici == old(hackathon.giudici)
        && (forall t | t in hackathon.teams :: !InTeam(t, id))
    {
      if hackathon == null {
        return Fail(IllegalState(NotInitialized));
      }
      if id <= 0 {
        return Fail(IllegalArgument(Invalid(UserId)));
      }
      var j := 0;
      while j < |hackathon.registrazioni| && hackathon.registrazioni[j].utente.id != id
        invariant 0 <= j <= |hackathon.registrazioni|
        invariant forall k | 0 <= k < j :: RegistrazioneUserKey(hackathon.registrazioni[k]) != id
      {
        j := j + 1;
      }
      if j == |hackathon.registrazioni| {
        return Fail(IllegalState(NotFound(TheUser)));
      }
      var target := hackathon.registrazioni[j].utente;
      if !persistOk {
        return Fail(Persistence);
      }
      TogliDaiTeam(target);
      hackathon.RimuoviRegistrazione(Some(target));
      r := Pass;
    }

    /** The team loop of `eliminaUtentePerId`, over a snapshot of the event's teams. */
    method TogliDaiTeam(target: Utente)
      requires Valid() && hackathon != null
      modifies hackathon, hackathon.teams
      ensures Valid()
      ensures hackathon.teams == old(Survivors(hackathon.teams, target.id))
      ensures hackathon.giudici == old(hackathon.giudici) && hackathon.registrazioni == old(hackathon.registrazioni)
      ensures hackathon.descrizioneProblema == old(hackathon.descrizioneProblema)
      ensures forall t | t in old(hackathon.teams) ::
        t.membri == RemoveFirst(old(t.membri), UtenteKey, target.id) && t.documenti == old(t.documenti)
      ensures forall t | t in hackathon.teams :: !InTeam(t, target.id)
    {
      var snapshot := hackathon.teams;
      TogliDalloSnapshot(snapshot, target);
      forall t | t in old(hackathon.teams)
        ensures t.membri == RemoveFirst(old(t.membri), UtenteKey, target.id) && t.documenti == old(t.documenti)
      {
        var k :| 0 <= k < |snapshot| && snapshot[k] == t;
      }
    }

    /** The loop itself: every team of `snapshot`, position by position, loses the user,
        and the event keeps exactly the teams that were not emptied. */
    method TogliDalloSnapshot(snapshot: seq<Team>, target: Utente)
      requires Valid() && hackathon != null && snapshot == hackathon.teams
      modifies hackathon, snapshot
      ensures Valid() && hackathon != null
      ensures hackathon.teams == Filter(snapshot, old(KeepMask(snapshot, target.id)))
      ensures hackathon.giudici == old(hackathon.giudici) && hackathon.registrazioni == old(hackathon.registrazioni)
      ensures hackathon.descrizioneProblema == old(hackathon.descrizioneProblema)
      ensures forall k | 0 <= k < |snapshot| ::
        snapshot[k].membri == RemoveFirst(old(snapshot[k].membri), UtenteKey, target.id)
        && snapshot[k].documenti == old(snapshot[k].documenti)
      ensures forall t | t in hackathon.teams :: !InTeam(t, target.id)
    {
      ghost var keep := KeepMask(snapshot, target.id);
      ghost var membri0 := MembriOf(snapshot);
      ghost var documenti0 := DocumentiOf(snapshot);
      ProgressStart(snapshot, target.id);
      var i := 0;
      while i < |snapshot|
        invariant Valid() && Progress(snapshot, keep, membri0, documenti0, i, target.id)
        invariant hackathon.giudici == old(hackathon.giudici) && hackathon.registrazioni == old(hackathon.registrazioni)
        invariant hackathon.descrizioneProblema == old(hackathon.descrizioneProblema)
      {
        TogliPasso(snapshot, keep, membri0, documenti0, i, target);
        i := i + 1;
      }
      ProgressDone(snapshot, keep, membri0, documenti0, target.id);
    }

    /** Before the loop, nothing has been visited and the event still lists the snapshot. */
    lemma ProgressStart(snapshot: seq<Team>, id: int)
      requires Valid() && hackathon != null && snapshot == hackathon.teams
      ensures Progress(snapshot, KeepMask(snapshot, id), MembriOf(snapshot), DocumentiOf(snapshot), 0, id)
    {
      var keep := KeepMask(snapshot, id);
      assert snapshot[..0] == [] && keep[..0] == [];
      assert hackathon.Valid();
    }

    /** When the loop ends, every team of the snapshot lost the user, the event keeps
        exactly the filtered teams, and none of them has the user as a member. */
    lemma ProgressDone(snapshot: seq<Team>, keep: seq<bool>, membri0: seq<seq<Utente>>,
                       documenti0: seq<seq<Documento>>, id: int)
      requires Progress(snapshot, keep, membri0, documenti0, |snapshot|, id)
      ensures hackathon.teams == Filter(snapshot, keep)
      ensures forall k | 0 <= k < |snapshot| ::
        snapshot[k].membri == RemoveFirst(membri0[k], UtenteKey, id) && snapshot[k].documenti == documenti0[k]
      ensures forall t | t in hackathon.teams :: !InTeam(t, id)
    {
      assert snapshot[..|snapshot|] == snapshot && keep[..|snapshot|] == keep;
      assert forall k | 0 <= k < |snapshot| :: Stepped(snapshot[k], membri0[k], documenti0[k], true, id);
      FilterMembers(snapshot, keep);
    }

    /** The state of that loop after its first `i` teams: those teams lost the user and,
        if the user was their only member, left the event; the others are untouched. */
    ghost predicate Progress(snapshot: seq<Team>, keep: seq<bool>, membri0: seq<seq<Utente>>,
                             documenti0: seq<seq<Documento>>, i: int, id: int)
      reads this, hackathon, snapshot
    {
      && |keep| == |snapshot| && |membri0| == |snapshot| && |documenti0| == |snapshot| && 0 <= i <= |snapshot|
      && hackathon != null && DistinctKeys(snapshot, TeamKey)
      && hackathon.teams == Filter(snapshot[..i], keep[..i]) + snapshot[i..]
      && (forall k | 0 <= k < |snapshot| :: keep[k] == !(HasKey(membri0[k], UtenteKey, id) && |membri0[k]| == 1))
      && (forall k | 0 <= k < |snapshot| :: Stepped(snapshot[k], membri0[k], documenti0[k], k < i, id))
    }

    /** One snapshot entry against its members `m0` and documents `d0` before the loop: once
        `done`, it has lost the user; before that, it is untouched. */
    ghost predicate Stepped(t: Team, m0: seq<Utente>, d0: seq<Documento>, done: bool, id: int)
      reads t
    {
      && t.documenti == d0
      && (if done then t.membri == RemoveFirst(m0, UtenteKey, id) && !InTeam(t, id) else t.membri == m0)
    }

    /** One pass of that loop, on the team at position `i` of the snapshot. */
    method TogliPasso(snapshot: seq<Team>, ghost keep: seq<bool>, ghost membri0: seq<seq<Utente>>,
                      ghost documenti0: seq<seq<Documento>>, i: int, target: Utente)
      requires Valid() && Progress(snapshot, keep, membri0, documenti0, i, target.id) && i < |snapshot|
      modifies hackathon, snapshot[i]
      ensures Valid() && Progress(snapshot, keep, membri0, documenti0, i + 1, target.id)
      ensures hackathon.giudici == old(hackathon.giudici) && hackathon.registrazioni == old(hackathon.registrazioni)
      ensures hackathon.descrizioneProblema == old(hackathon.descrizioneProblema)
    {
      var t := snapshot[i];
      PassoFacts(snapshot, keep, membri0, documenti0, i, target.id);
      ghost var after := if keep[i] then hackathon.teams else RemoveFirst(hackathon.teams, TeamKey, t.id);
      TogliDalTeam(t, target);
      assert hackathon.teams == after;
      forall k | 0 <= k < |snapshot|
        ensures Stepped(snapshot[k], membri0[k], documenti0[k], k < i + 1, target.id)
      {
        if k != i {
          assert snapshot[k] != t;
          assert old(Stepped(snapshot[k], membri0[k], documenti0[k], k < i, target.id));
        }
      }
    }

    /** What one pass relies on: the team's position in the event's list, what removing it
        by id leaves, whether it is dropped, and that the other snapshot entries are other
        objects. */
    lemma PassoFacts(snapshot: seq<Team>, keep: seq<bool>, membri0: seq<seq<Utente>>,
                     documenti0: seq<seq<Documento>>, i: int, id: int)
      requires Valid() && Progress(snapshot, keep, membri0, documenti0, i, id) && i < |snapshot|
      ensures Dropped(snapshot[i], id) == !keep[i]
      ensures (if keep[i] then hackathon.teams else RemoveFirst(hackathon.teams, TeamKey, snapshot[i].id))
              == Filter(snapshot[..i + 1], keep[..i + 1]) + snapshot[i + 1..]
      ensures forall k | 0 <= k < |snapshot| && k != i :: snapshot[k] != snapshot[i]
    {
      var t := snapshot[i];
      var kept := Filter(snapshot[..i], keep[..i]);
      assert snapshot[i..] == [t] + snapshot[i + 1..];
      assert hackathon.teams == kept + [t] + snapshot[i + 1..];
      FilterStep(snapshot, keep, i);
      forall k | 0 <= k < |snapshot| && k != i ensures snapshot[k] != t {
        assert TeamKey(snapshot[k]) != TeamKey(snapshot[i]);
      }
      if keep[i] {
        assert kept + [t] + snapshot[i + 1..] == (kept + [t]) + snapshot[i + 1..];
      } else {
        assert hackathon.Valid();
        DropAt(kept, t, snapshot[i + 1..]);
        assert kept + [] == kept;
      }
    }

    /** One step of that loop: takes the user out of `t`, and drops `t` from the event
        when the user was its only member. */
    method TogliDalTeam(t: Team, target: Utente)
      requires Valid() && hackathon != null && t in hackathon.teams
      modifies t, hackathon
      ensures Valid()
      ensures t.membri == RemoveFirst(old(t.membri), UtenteKey, target.id) && t.documenti == old(t.documenti)
      ensures !InTeam(t, target.id)
      ensures hackathon.teams ==
        (if old(Dropped(t, target.id)) then RemoveFirst(old(hackathon.teams), TeamKey, t.id) else old(hackathon.teams))
      ensures hackathon.giudici == old(hackathon.giudici) && hackathon.registrazioni == old(hackathon.registrazioni)
      ensures hackathon.descrizioneProblema == old(hackathon.descrizioneProblema)
    {
      if InTeam(t, target.id) {
        t.RimuoviMembro(Some(target));
        forall x | x in hackathon.teams ensures x.Valid() {
          if x != t {
            assert old(x.Valid());
          }
        }
        forall x, j | x in hackathon.teams && InTeam(x, j) ensures old(InTeam(x, j)) {
          if x == t {
            assert HasKey(RemoveFirst(old(t.membri), UtenteKey, target.id), UtenteKey, j);
          }
        }
        if t.membri == [] {
          hackathon.RimuoviTeam(t);
        }
      }
    }

    // -------------------------------------------------------------------------
    // Final votes.
    // -------------------------------------------------------------------------

    /** The outcome of `assegnaVotoFinale`, in source order. */
    function VoteCheck(v: Option<Voto>, oggi: int, persistOk: bool): (r: Outcome<Error>)
      reads this, hackathon
      ensures r.Pass? <==>
        (hackathon != null && v.Some?
         && HasKey(hackathon.giudici, UtenteKey, v.value.giudice.id)
         && HasKey(hackathon.teams, TeamKey, v.value.team.id)
         && hackathon.IsVotazioneConsentita(oggi)
         && !HasKey(votiFinali, VotoPairKey, VotoPairKey(v.value))
         && persistOk)
    {
      if hackathon == null then Fail(IllegalState(NotInitialized))
      else if v.None? then Fail(IllegalArgument(Invalid(TheVote)))
      else if !HasKey(hackathon.giudici, UtenteKey, v.value.giudice.id) then Fail(IllegalArgument(JudgeNotInEvent))
      else if !HasKey(hackathon.teams, TeamKey, v.value.team.id) then Fail(IllegalArgument(TeamNotInEvent))
      else if !hackathon.IsVotazioneConsentita(oggi) then Fail(IllegalState(VotingNotAllowed))
      else if HasKey(votiFinali, VotoPairKey, VotoPairKey(v.value)) then Fail(IllegalState(DuplicateVote))
      else if !persistOk then Fail(Persistence)
      else Pass
    }

    /** `assegnaVotoFinale`: appends the vote, persists, and removes it again when
        persisting fails; there is never more than one vote per (judge, team). */
    method AssegnaVotoFinale(v: Option<Voto>, oggi: int, persistOk: bool) returns (r: Outcome<Error>)
      requires Valid()
      modifies this
      ensures Valid()
      ensures r == old(VoteCheck(v, oggi, persistOk))
      ensures votiFinali == (if r.Pass? then old(votiFinali) + [v.value] else old(votiFinali))
      ensures DistinctKeys(votiFinali, VotoPairKey)
      ensures hackathon == old(hackathon) && punteggiDocumenti == old(punteggiDocumenti)
      ensures registrazioniAperte == old(registrazioniAperte) && invioDocumentiAbilitato == old(invioDocumentiAbilitato)
    {
      if hackathon == null {
        return Fail(IllegalState(NotInitialized));
      }
      if v.None? {
        return Fail(IllegalArgument(Invalid(TheVote)));
      }
      if !HasKey(hackathon.giudici, UtenteKey, v.value.giudice.id) {
        return Fail(IllegalArgument(JudgeNotInEvent));
      }
      if !HasKey(hackathon.teams, TeamKey, v.value.team.id) {
        return Fail(IllegalArgument(TeamNotInEvent));
      }
      if !hackathon.IsVotazioneConsentita(oggi) {
        return Fail(IllegalState(VotingNotAllowed));
      }
      if HasKey(votiFinali, VotoPairKey, VotoPairKey(v.value)) {
        return Fail(IllegalState(DuplicateVote));
      }
      var before := votiFinali;
      DistinctKeysAppend(votiFinali, VotoPairKey, v.value);
      votiFinali := votiFinali + [v.value];
      if !persistOk {
        // `List.remove(v)` drops the vote object just added; no earlier vote has its
        // (judge, team) pair, so it is the first vote with that pair.
        RemoveFirstSplit(before, v.value, [], VotoPairKey);
        assert before + [v.value] + [] == before + [v.value];
        votiFinali := RemoveFirst(votiFinali, VotoPairKey, VotoPairKey(v.value));
        return Fail(Persistence);
      }
      return Pass;
    }

    // -------------------------------------------------------------------------
    // Teams.
    // -------------------------------------------------------------------------

    /** `nextTeamIdSafe`: one more than the larger of the largest in-memory team id
        and the database's largest id (`maxIdDb`; `None` when reading it fails). */
    method NextTeamIdSafe(maxIdDb: Option<int>) returns (r: int)
      requires hackathon != null
      ensures r == SafeTeamId(hackathon.teams, maxIdDb)
    {
      var maxMem := 0;
      var i := 0;
      while i < |hackathon.teams|
        invariant 0 <= i <= |hackathon.teams|
        invariant maxMem == MaxTeamId(hackathon.teams[..i])
      {
        assert hackathon.teams[..i + 1][..i] == hackathon.teams[..i];
        if hackathon.teams[i].id > maxMem {
          maxMem := hackathon.teams[i].id;
        }
        i := i + 1;
      }
      assert hackathon.teams[..i] == hackathon.teams;
      var maxDb := 0;
      if maxIdDb.Some? {
        maxDb := maxIdDb.value;
      }
      r := (if maxMem >= maxDb then maxMem else maxDb) + 1;
    }

    /** The outcome of `aggiungiTeam`: the controller's own guards, then those of the
        event on a copy of the team under a fresh id, then persistence. */
    function AddTeamCheck(t: Team?, oggi: int, persistOk: bool): (r: Outcome<Error>)
      reads this, hackathon, EventTeams(), t
      ensures r.Pass? <==>
        (hackathon != null && registrazioniAperte && t != null
         && |hackathon.teams| < MAX_TEAMS
         && !HasKey(hackathon.teams, NormalizedName, NormalizedName(t))
         && hackathon.IsRegistrazioneConsentita(oggi)
         && t.membri != [] && |t.membri| <= hackathon.maxTeamSize
         && hackathon.MemberCheck(t.membri).None?
         && persistOk)
    {
      if hackathon == null then Fail(IllegalState(NotInitialized))
      else if !registrazioniAperte then Fail(IllegalState(RegistrationsNotOpen))
      else if t == null then Fail(IllegalArgument(Invalid(TheTeam)))
      else if |hackathon.teams| >= MAX_TEAMS then Fail(IllegalState(TooManyTeams))
      else if HasKey(hackathon.teams, NormalizedName, NormalizedName(t)) then Fail(IllegalState(TeamNameInUse))
      else if !hackathon.IsRegistrazioneConsentita(oggi) then Fail(IllegalState(TeamChangesClosed))
      else if t.membri == [] then Fail(IllegalArgument(TeamWithoutMembers))
      else if |t.membri| > hackathon.maxTeamSize then Fail(IllegalArgument(TeamTooLarge))
      else if hackathon.MemberCheck(t.membri).Some? then Fail(IllegalState(hackathon.MemberCheck(t.membri).value))
      else if !persistOk then Fail(Persistence)
      else Pass
    }

    /** `aggiungiTeam`: adds a copy of `t` (same name, same members) under an id above
        every id in memory and in the database, persists, and removes the copy again
        when persisting fails. */
    method AggiungiTeam(t: Team?, oggi: int, maxIdDb: Option<int>, persistOk: bool) returns (r: Outcome<Error>)
      requires Valid() && (t != null ==> t.Valid())
      modifies hackathon
      ensures Valid()
      ensures r == old(AddTeamCheck(t, oggi, persistOk))
      ensures hackathon != null && r.Fail? ==> hackathon.teams == old(hackathon.teams)
      ensures r.Pass? ==>
        (|hackathon.teams| == |old(hackathon.teams)| + 1
         && hackathon.teams[..|old(hackathon.teams)|] == old(hackathon.teams)
         && var added := hackathon.teams[|old(hackathon.teams)|];
            fresh(added) && added.id == old(SafeTeamId(hackathon.teams, maxIdDb))
            && added.nome == t.nome && added.membri == t.membri && added.documenti == [])
      ensures hackathon != null ==>
        hackathon.giudici == old(hackathon.giudici) && hackathon.registrazioni == old(hackathon.registrazioni)
      ensures hackathon != null ==> hackathon.descrizioneProblema == old(hackathon.descrizioneProblema)
    {
      if hackathon == null {
        return Fail(IllegalState(NotInitialized));
      }
      if !registrazioniAperte {
        return Fail(IllegalState(RegistrationsNotOpen));
      }
      if t == null {
        return Fail(IllegalArgument(Invalid(TheTeam)));
      }
      var idSicuro := NextTeamIdSafe(maxIdDb);
      var copy := CopyTeam(idSicuro, t);
      assert AddTeamCheck(t, oggi, persistOk) == old(AddTeamCheck(t, oggi, persistOk)) by {
        assert unchanged(this, hackathon, t) && unchanged(EventTeams());
      }
      CopyCheckAgrees(t, copy, oggi, persistOk);
      r := AggiungiCopia(copy, oggi, persistOk);
    }

    /** The second half of `aggiungiTeam`: the event's `aggiungiTeam` on the copy,
        persistence, and the removal of the copy when persisting fails. */
    method AggiungiCopia(copy: Team, oggi: int, persistOk: bool) returns (r: Outcome<Error>)
      requires Valid() && hackathon != null && copy.Valid()
      requires !HasKey(hackathon.teams, TeamKey, copy.id)
      modifies hackathon
      ensures Valid()
      ensures r == old(match hackathon.TeamAddCheck(copy, oggi)
                       case Some(e) => Fail(e)
                       case None => if persistOk then Pass else Fail(Persistence))
      ensures hackathon.teams == (if r.Pass? then old(hackathon.teams) + [copy] else old(hackathon.teams))
      ensures hackathon.giudici == old(hackathon.giudici) && hackathon.registrazioni == old(hackathon.registrazioni)
      ensures hackathon.descrizioneProblema == old(hackathon.descrizioneProblema)
    {
      ghost var check := hackathon.TeamAddCheck(copy, oggi);
      r := hackathon.AggiungiTeam(copy, oggi);
      assert r == (if check.Some? then Fail(check.value) else Pass);
      if r.Pass? && !persistOk {
        AnnullaAggiunta(copy);
        r := Fail(Persistence);
      }
    }

    /** The rollback of `aggiungiTeam`: removes the team just appended. */
    method AnnullaAggiunta(copy: Team)
      requires Valid() && hackathon != null
      requires |hackathon.teams| > 0 && hackathon.teams[|hackathon.teams| - 1] == copy
      requires !HasKey(hackathon.teams[..|hackathon.teams| - 1], TeamKey, copy.id)
      modifies hackathon
      ensures Valid()
      ensures hackathon.teams == old(hackathon.teams[..|hackathon.teams| - 1])
      ensures hackathon.giudici == old(hackathon.giudici) && hackathon.registrazioni == old(hackathon.registrazioni)
      ensures hackathon.descrizioneProblema == old(hackathon.descrizioneProblema)
    {
      var before := hackathon.teams[..|hackathon.teams| - 1];
      assert hackathon.teams == before + [copy] + [];
      hackathon.RimuoviTeam(copy);
      RemoveFirstSplit(before, copy, [], TeamKey);
    }

    /** On the copy, the event's guards give what the controller's outcome states. */
    lemma CopyCheckAgrees(t: Team, copy: Team, oggi: int, persistOk: bool)
      requires hackathon != null && registrazioniAperte
      requires copy.nome == t.nome && copy.membri == t.membri && !HasKey(hackathon.teams, TeamKey, copy.id)
      ensures AddTeamCheck(t, oggi, persistOk) ==
        match hackathon.TeamAddCheck(copy, oggi)
        case Some(e) => Fail(e)
        case None => if persistOk then Pass else Fail(Persistence)
    {
    }

    /** The team `aggiungiTeam` builds: `new Team(idSicuro, t.getNome())`, then each
        member of `t` added in order. */
    static method CopyTeam(id: int, t: Team) returns (copy: Team)
      requires id > 0 && t.Valid()
      ensures fresh(copy) && copy.Valid()
      ensures copy.id == id && copy.nome == t.nome && copy.membri == t.membri && copy.documenti == []
    {
      copy := new Team(id, t.nome);
      var i := 0;
      while i < |t.membri|
        invariant 0 <= i <= |t.membri|
        invariant copy.Valid() && copy.membri == t.membri[..i] && copy.documenti == []
        modifies copy
      {
        assert !HasKey(copy.membri, UtenteKey, t.membri[i].id) by {
          forall k | 0 <= k < i ensures copy.membri[k].id != t.membri[i].id {
            assert UtenteKey(t.membri[k]) != UtenteKey(t.membri[i]);
          }
        }
        var added := copy.AggiungiMembro(Some(t.membri[i]));
        assert t.membri[..i + 1] == t.membri[..i] + [t.membri[i]];
        i := i + 1;
      }
      assert t.membri[..i] == t.membri;
    }

    // -------------------------------------------------------------------------
    // The problem statement and the documents.
    // -------------------------------------------------------------------------

    /** The outcome of the controller's `pubblicaProblema`. */
    function PublishProblemCheck(descrizione: Option<string>, oggi: int): (r: Outcome<Error>)
      reads this, hackathon
      ensures r.Pass? <==>
        (hackathon != null && MinimumsCheck() == None && hackathon.PublishCheck(descrizione, oggi).Pass?)
    {
      if hackathon == null then Fail(IllegalState(NotInitialized))
      else match MinimumsCheck()
        case Some(e) => Fail(e)
        case None => hackathon.PublishCheck(descrizione, oggi)
    }

    /** `pubblicaProblema`: publishes only with three judges and three teams. */
    method PubblicaProblema(descrizione: Option<string>, oggi: int) returns (r: Outcome<Error>)
      requires Valid()
      modifies hackathon
      ensures Valid()
      ensures r == old(PublishProblemCheck(descrizione, oggi))
      ensures hackathon != null ==>
        hackathon.descrizioneProblema == (if r.Pass? then descrizione else old(hackathon.descrizioneProblema))
      ensures hackathon != null ==>
        (hackathon.giudici == old(hackathon.giudici) && hackathon.registrazioni == old(hackathon.registrazioni)
         && hackathon.teams == old(hackathon.teams))
    {
      if hackathon == null {
        return Fail(IllegalState(NotInitialized));
      }
      var minimums := MinimumsCheck();
      if minimums.Some? {
        return Fail(minimums.value);
      }
      r := hackathon.PubblicaProblema(descrizione, oggi);
    }

    /** The outcome of `caricaDocumentoEValuta`, in source order; the upload switch is
        read after its synchronisation with the date. */
    function UploadEvalCheck(team: Team?, d: Option<Documento>, oggi: int, persistOk: bool): (r: Option<Error>)
      reads this, hackathon, team
      ensures r.None? <==>
        (hackathon != null && team != null && d.Some?
         && SyncFlag(invioDocumentiAbilitato, hackathon.IsDuranteHackathon(oggi))
         && MinimumsCheck().None?
         && hackathon.UploadCheck(team, d, oggi).Pass?
         && persistOk)
    {
      if hackathon == null then Some(IllegalState(NotInitialized))
      else if team == null then Some(IllegalArgument(Invalid(TheTeam)))
      else if d.None? then Some(IllegalArgument(Invalid(TheDocument)))
      else if !SyncFlag(invioDocumentiAbilitato, hackathon.IsDuranteHackathon(oggi)) then
        Some(IllegalState(SubmissionsNotEnabled))
      else if MinimumsCheck().Some? then MinimumsCheck()
      else if hackathon.UploadCheck(team, d, oggi).Fail? then Some(hackathon.UploadCheck(team, d, oggi).error)
      else if !persistOk then Some(Persistence)
      else None
    }

    /** `caricaDocumentoEValuta`: uploads the document, persists it (popping it again
        when that fails), then records as the document's points the rounded mean of
        one mark per judge; the marks, drawn at random in the source, are an input. */
    method CaricaDocumentoEValuta(team: Team?, d: Option<Documento>, oggi: int, persistOk: bool,
                                  votiGiudici: seq<int>) returns (r: Result<int, Error>)
      requires Valid() && (team != null ==> team.Valid())
      requires hackathon != null ==> |votiGiudici| == |hackathon.giudici| && AllWithin(votiGiudici, 1, 10)
      modifies this, team
      ensures Valid()
      ensures r.Success? ==> hackathon != null && team != null && d.Some?
      ensures r.Failure? <==> old(UploadEvalCheck(team, d, oggi, persistOk)).Some?
      ensures r.Failure? ==> r.error == old(UploadEvalCheck(team, d, oggi, persistOk)).value
      ensures r.Success? ==> r.value == PuntiDocumento(votiGiudici) && 1 <= r.value <= 10
      ensures punteggiDocumenti ==
        (if r.Success? then old(punteggiDocumenti)[team.id := PuntiDelTeam(old(punteggiDocumenti), team.id) + [r.value]]
         else old(punteggiDocumenti))
      ensures team != null ==>
        team.documenti == (if r.Success? then old(team.documenti) + [d.value] else old(team.documenti))
      ensures team != null ==> team.membri == old(team.membri)
      ensures invioDocumentiAbilitato ==
        (if hackathon != null && team != null && d.Some?
         then SyncFlag(old(invioDocumentiAbilitato), hackathon.IsDuranteHackathon(oggi))
         else old(invioDocumentiAbilitato))
      ensures hackathon == old(hackathon) && votiFinali == old(votiFinali)
      ensures registrazioniAperte == old(registrazioniAperte)
    {
      if hackathon == null {
        return Failure(IllegalState(NotInitialized));
      }
      if team == null {
        return Failure(IllegalArgument(Invalid(TheTeam)));
      }
      if d.None? {
        return Failure(IllegalArgument(Invalid(TheDocument)));
      }
      var synced := SyncInvioDocumentiConData(oggi);
      if !invioDocumentiAbilitato {
        return Failure(IllegalState(SubmissionsNotEnabled));
      }
      var minimums := MinimumsCheck();
      if minimums.Some? {
        return Failure(minimums.value);
      }
      r := CaricaEValuta(team, d.value, oggi, persistOk, votiGiudici);
    }

    /** The part of `caricaDocumentoEValuta` after its guards: the upload, its rollback
        when persisting fails, and the points of the document. */
    method CaricaEValuta(team: Team, doc: Documento, oggi: int, persistOk: bool, votiGiudici: seq<int>)
      returns (r: Result<int, Error>)
      requires Valid() && hackathon != null && team.Valid() && MinimumsCheck().None?
      requires |votiGiudici| == |hackathon.giudici| && AllWithin(votiGiudici, 1, 10)
      modifies this, team
      ensures Valid()
      ensures r == old(if hackathon.UploadCheck(team, Some(doc), oggi).Fail?
                       then Failure(hackathon.UploadCheck(team, Some(doc), oggi).error)
                       else if !persistOk then Failure(Persistence)
                       else Success(PuntiDocumento(votiGiudici)))
      ensures r.Success? ==> 1 <= r.value <= 10
      ensures punteggiDocumenti ==
        (if r.Success? then old(punteggiDocumenti)[team.id := PuntiDelTeam(old(punteggiDocumenti), team.id) + [r.value]]
         else old(punteggiDocumenti))
      ensures team.documenti == (if r.Success? then old(team.documenti) + [doc] else old(team.documenti))
      ensures team.membri == old(team.membri)
      ensures hackathon == old(hackathon) && votiFinali == old(votiFinali)
      ensures registrazioniAperte == old(registrazioniAperte) && invioDocumentiAbilitato == old(invioDocumentiAbilitato)
    {
      var uploaded := hackathon.CaricaDocumento(team, Some(doc), oggi);
      MembershipFramed(hackathon);
      if uploaded.Fail? {
        return Failure(uploaded.error);
      }
      if !persistOk {
        label uploadedState:
        team.RimuoviUltimoDocumento();
        MembershipFramed@uploadedState(hackathon);
        WithoutLastUndoesAppend(old(team.documenti), doc);
        return Failure(Persistence);
      }
      var punti := PuntiDaiVoti(votiGiudici);
      var lista := PuntiDelTeam(punteggiDocumenti, team.id) + [punti];
      assert AllWithin(lista, 1, 10);
      punteggiDocumenti := punteggiDocumenti[team.id := lista];
      return Success(punti);
    }

    /** The loop of `caricaDocumentoEValuta` over the judges: the sum of their marks,
        then `(int) Math.round(media)`. */
    static method PuntiDaiVoti(votiGiudici: seq<int>) returns (punti: int)
      requires |votiGiudici| > 0 && AllWithin(votiGiudici, 1, 10)
      ensures punti == PuntiDocumento(votiGiudici) && 1 <= punti <= 10
    {
      var somma := 0;
      var i := 0;
      while i < |votiGiudici|
        invariant 0 <= i <= |votiGiudici|
        invariant somma == Sum(votiGiudici[..i])
      {
        assert votiGiudici[..i + 1][..i] == votiGiudici[..i];
        somma := somma + votiGiudici[i];
        i := i + 1;
      }
      assert votiGiudici[..i] == votiGiudici;
      punti := RoundedMean(somma, |votiGiudici|);
      PuntiDocumentoFacts(votiGiudici);
    }

    // -------------------------------------------------------------------------
    // Scoring.
    // -------------------------------------------------------------------------

    /** `getSlotTotaliDocumenti`: five days of three documents. */
    method GetSlotTotaliDocumenti() returns (r: Result<int, Error>)
      ensures hackathon == null ==> r == Failure(IllegalState(NotInitialized))
      ensures hackathon != null ==> r == Success(15)
    {
      if hackathon == null {
        return Failure(IllegalState(NotInitialized));
      }
      return Success(DURATA_HACKATHON_GIORNI * MAX_DOCUMENTI_AL_GIORNO_PER_TEAM);
    }

    /** The points recorded for a team (`getOrDefault`), none for null. */
    function PuntiOf(team: Team?): seq<int>
      reads this
    {
      if team == null then [] else PuntiDelTeam(punteggiDocumenti, team.id)
    }

    /** `getNumeroDocumentiConsegnati`: the number of points recorded for the team. */
    function GetNumeroDocumentiConsegnati(team: Team?): (r: nat)
      reads this
      ensures team == null ==> r == 0
      ensures team != null && team.id !in punteggiDocumenti ==> r == 0
      ensures team != null && team.id in punteggiDocumenti ==> r == |punteggiDocumenti[team.id]|
    {
      |PuntiOf(team)|
    }

    /** `getSommaPuntiDocumenti`: the sum of the team's document points, which lies
        between one and ten points per delivered document. */
    method GetSommaPuntiDocumenti(team: Team?) returns (r: int)
      requires Valid()
      ensures r == Sum(PuntiOf(team))
      ensures GetNumeroDocumentiConsegnati(team) <= r <= 10 * GetNumeroDocumentiConsegnati(team)
    {
      var punti := PuntiOf(team);
      r := 0;
      var i := 0;
      while i < |punti|
        invariant 0 <= i <= |punti|
        invariant r == Sum(punti[..i])
      {
        assert punti[..i + 1][..i] == punti[..i];
        r := r + punti[i];
        i := i + 1;
      }
      assert punti[..i] == punti;
      SumWithin(punti, 1, 10);
    }

    /** `getDocumentiMancanti`: the slots not yet filled, never negative. */
    method GetDocumentiMancanti(team: Team?) returns (r: Result<int, Error>)
      ensures hackathon == null ==> r == Failure(IllegalState(NotInitialized))
      ensures hackathon != null ==> r == Success(DocumentiMancanti(GetNumeroDocumentiConsegnati(team)))
    {
      var slots := GetSlotTotaliDocumenti();
      if slots.Failure? {
        return Failure(slots.error);
      }
      var consegnati := GetNumeroDocumentiConsegnati(team);
      r := Success(if slots.value - consegnati > 0 then slots.value - consegnati else 0);
    }

    /** `calcolaMediaProgressiConZeri`: the points over the fifteen slots; within
        [0, 10] while a team has no more points than slots. */
    method CalcolaMediaProgressiConZeri(team: Team?) returns (r: Result<real, Error>)
      requires Valid()
      ensures hackathon == null ==> r == Failure(IllegalState(NotInitialized))
      ensures hackathon != null ==> r == Success(MediaProgressi(PuntiOf(team)))
      ensures r.Success? && GetNumeroDocumentiConsegnati(team) <= SLOT_TOTALI ==> 0.0 <= r.value <= 10.0
    {
      var slots := GetSlotTotaliDocumenti();
      if slots.Failure? {
        return Failure(slots.error);
      }
      if slots.value <= 0 {
        return Success(0.0);
      }
      var somma := GetSommaPuntiDocumenti(team);
      r := Success(somma as real / slots.value as real);
      if GetNumeroDocumentiConsegnati(team) <= SLOT_TOTALI {
        MediaProgressiWithin(PuntiOf(team));
      }
    }

    /** `mediaVotiTeamConZeri`: the team's final marks summed over all votes and
        divided by the number of judges, 0 without judges. */
    method MediaVotiTeamConZeri(team: Team) returns (r: real)
      requires hackathon != null
      ensures r == MediaVoti(VotiDelTeam(votiFinali, team.id), |hackathon.giudici|)
    {
      var somma := 0;
      var i := 0;
      while i < |votiFinali|
        invariant 0 <= i <= |votiFinali|
        invariant somma == Sum(VotiDelTeam(votiFinali[..i], team.id))
      {
        VotiDelTeamStep(votiFinali, i, team.id);
        if team.id == votiFinali[i].team.id {
          somma := somma + votiFinali[i].punteggio;
        }
        i := i + 1;
      }
      assert votiFinali[..i] == votiFinali;
      if |hackathon.giudici| == 0 {
        return 0.0;
      }
      r := somma as real / |hackathon.giudici| as real;
    }

    /** `scoreTotaleTeam`: 70% of the vote average plus 30% of progress. */
    method ScoreTotaleTeam(team: Team) returns (r: real)
      requires Valid() && hackathon != null
      ensures r == ScoreTeam(votiFinali, punteggiDocumenti, |hackathon.giudici|, team.id)
    {
      var voti := MediaVotiTeamConZeri(team);
      var prog := CalcolaMediaProgressiConZeri(team);
      r := 0.70 * voti + 0.30 * prog.value;
    }

    /** The guards of `generaSchermataClassificaCompleta`, in source order. */
    function RankingCheck(oggi: int): (r: Option<Error>)
      reads this, hackathon
      ensures r == None <==>
        (hackathon != null && hackathon.IsVotazioneConsentita(oggi)
         && |hackathon.giudici| >= MAX_GIUDICI && |hackathon.teams| >= MIN_TEAM_PER_INIZIARE_GARA)
    {
      if hackathon == null then Some(IllegalState(NotInitialized))
      else if !hackathon.IsVotazioneConsentita(oggi) then Some(IllegalState(RankingNotAvailable))
      else MinimumsCheck()
    }

    /** The ranking of `generaSchermataClassificaCompleta`: after the event, with three
        judges and three teams, the teams sorted by descending score, equal scores
        in list order; the text around it is not modelled. */
    method GeneraClassifica(oggi: int) returns (r: Result<seq<Team>, Error>)
      requires Valid()
      ensures r.Failure? <==> RankingCheck(oggi).Some?
      ensures r.Failure? ==> r.error == RankingCheck(oggi).value
      ensures r.Success? ==>
        var key := RankingKey(votiFinali, punteggiDocumenti, |hackathon.giudici|);
        && SortedDesc(r.value, key)
        && multiset(r.value) == multiset(hackathon.teams)
        && (forall v :: WithKey(r.value, key, v) == WithKey(hackathon.teams, key, v))
    {
      var check := RankingCheck(oggi);
      if check.Some? {
        return Failure(check.value);
      }
      var key := RankingKey(votiFinali, punteggiDocumenti, |hackathon.giudici|);
      ClassificaIsStableSort(hackathon.teams, key);
      return Success(Classifica(hackathon.teams, key));
    }
  }

  /** `nextTeamIdSafe`'s value: above every in-memory id and the database's id. */
  function SafeTeamId(ts: seq<Team>, maxIdDb: Option<int>): (r: int)
    ensures r >= 1
    ensures forall k | 0 <= k < |ts| :: ts[k].id < r
    ensures maxIdDb.Some? ==> maxIdDb.value < r
    ensures !HasKey(ts, TeamKey, r)
  {
    var maxDb := if maxIdDb.Some? then maxIdDb.value else 0;
    (if MaxTeamId(ts) >= maxDb then MaxTeamId(ts) else maxDb) + 1
  }

  /** The ranking key: a team's score, from the votes, the points and the judge count. */
  function RankingKey(voti: seq<Voto>, punti: map<int, seq<int>>, nGiudici: int): Team -> real {
    (t: Team) => ScoreTeam(voti, punti, nGiudici, t.id)
  }

  /** `eliminaUtentePerId` drops a team when the user is its only member. */
  predicate Dropped(t: Team, id: int)
    reads t
  {
    InTeam(t, id) && |t.membri| == 1
  }

  /** For each team of `ts`, whether `eliminaUtentePerId` keeps it. */
  /** The members of each team, position by position. */
  ghost function MembriOf(ts: seq<Team>): (r: seq<seq<Utente>>)
    reads ts
    ensures |r| == |ts|
    ensures forall k | 0 <= k < |ts| :: r[k] == ts[k].membri
  {
    seq(|ts|, k requires 0 <= k < |ts| reads ts => ts[k].membri)
  }

  /** The documents of each team, position by position. */
  ghost function DocumentiOf(ts: seq<Team>): (r: seq<seq<Documento>>)
    reads ts
    ensures |r| == |ts|
    ensures forall k | 0 <= k < |ts| :: r[k] == ts[k].documenti
  {
    seq(|ts|, k requires 0 <= k < |ts| reads ts => ts[k].documenti)
  }

  function KeepMask(ts: seq<Team>, id: int): (r: seq<bool>)
    reads ts
    ensures |r| == |ts|
    ensures forall k | 0 <= k < |ts| :: r[k] == !Dropped(ts[k], id)
  {
    seq(|ts|, k requires 0 <= k < |ts| reads ts => !Dropped(ts[k], id))
  }

  /** The elements of `s` whose flag in `keep` is set, in their order. */
  function Filter<T>(s: seq<T>, keep: seq<bool>): (r: seq<T>)
    requires |keep| == |s|
    ensures |r| <= |s|
    decreases |s|
  {
    if s == [] then []
    else
      var n := |s| - 1;
      Filter(s[..n], keep[..n]) + (if keep[n] then [s[n]] else [])
  }

  /** An element is in the filtered sequence exactly when some position holding it is kept. */
  lemma {:induction false} FilterMembers<T>(s: seq<T>, keep: seq<bool>)
    requires |keep| == |s|
    ensures forall x | x in Filter(s, keep) :: exists k | 0 <= k < |s| :: s[k] == x && keep[k]
    ensures forall k | 0 <= k < |s| && keep[k] :: s[k] in Filter(s, keep)
    decreases |s|
  {
    if s != [] {
      var n := |s| - 1;
      FilterMembers(s[..n], keep[..n]);
      assert forall k | 0 <= k < n :: s[..n][k] == s[k] && keep[..n][k] == keep[k];
    }
  }

  /** Extending the prefix by one element extends the filtered prefix by that element
      when it is kept. */
  lemma FilterStep<T>(s: seq<T>, keep: seq<bool>, i: int)
    requires |keep| == |s| && 0 <= i < |s|
    ensures Filter(s[..i + 1], keep[..i + 1]) == Filter(s[..i], keep[..i]) + (if keep[i] then [s[i]] else [])
  {
    assert s[..i + 1][..i] == s[..i] && keep[..i + 1][..i] == keep[..i];
  }

  /** The teams that `eliminaUtentePerId` keeps, in their order: every team except those
      whose only member is the user. */
  function Survivors(ts: seq<Team>, id: int): (r: seq<Team>)
    reads ts
    ensures |r| <= |ts|
    ensures forall t | t in r :: t in ts && !Dropped(t, id)
    ensures forall t | t in ts && !Dropped(t, id) :: t in r
  {
    FilterMembers(ts, KeepMask(ts, id));
    Filter(ts, KeepMask(ts, id))
  }

  /** Removing a team by id from a list whose ids are distinct removes that team and
      keeps the rest in order. */
  lemma DropAt(a: seq<Team>, x: Team, b: seq<Team>)
    requires DistinctKeys(a + [x] + b, TeamKey)
    ensures RemoveFirst(a + [x] + b, TeamKey, x.id) == a + b
  {
    assert !HasKey(a, TeamKey, TeamKey(x)) by {
      forall k | 0 <= k < |a| ensures TeamKey(a[k]) != TeamKey(x) {
        assert (a + [x] + b)[k] == a[k] && (a + [x] + b)[|a|] == x;
      }
    }
    RemoveFirstSplit(a, x, b, TeamKey);
  }

  /** One more vote adds its mark to the sum of its team's marks. */
  lemma VotiDelTeamStep(voti: seq<Voto>, i: int, teamId: int)
    requires 0 <= i < |voti|
    ensures Sum(VotiDelTeam(voti[..i + 1], teamId)) ==
      Sum(VotiDelTeam(voti[..i], teamId)) + (if voti[i].team.id == teamId then voti[i].punteggio as int else 0)
  {
    assert voti[..i + 1][..i] == voti[..i];
    var p := VotiDelTeam(voti[..i], teamId);
    if voti[i].team.id == teamId {
      SumAppend(p, [voti[i].punteggio as int]);
      assert Sum([voti[i].punteggio as int]) == Sum([voti[i].punteggio as int][..0]) + voti[i].punteggio as int;
    }
  }

  /** `removeIf` on a judge keeps the remaining votes one per (judge, team) pair. */
  lemma {:induction false} RemoveAllKeepsPairs(voti: seq<Voto>, id: int)
    requires DistinctKeys(voti, VotoPairKey)
    ensures DistinctKeys(RemoveAll(voti, VotoJudgeKey, id), VotoPairKey)
    decreases |voti|
  {
    if voti != [] {
      var tail := voti[1..];
      assert forall i | 0 <= i < |tail| :: tail[i] == voti[i + 1];
      RemoveAllKeepsPairs(tail, id);
      var rt := RemoveAll(tail, VotoJudgeKey, id);
      var r := RemoveAll(voti, VotoJudgeKey, id);
      if VotoJudgeKey(voti[0]) != id {
        assert r == [voti[0]] + rt;
        forall i, j | 0 <= i < j < |r| ensures VotoPairKey(r[i]) != VotoPairKey(r[j]) {
          if i == 0 {
            assert r[j] == rt[j - 1];
            RemoveAllSubset(tail, VotoJudgeKey, id);
            assert r[j] in tail;
          } else {
            assert r[i] == rt[i - 1] && r[j] == rt[j - 1];
          }
        }
      }
    }
  }

  /** `removeIf` keeps only elements of the original list. */
  lemma {:induction false} RemoveAllSubset<T, K(!new)>(s: seq<T>, key: T -> K, k: K)
    ensures forall x | x in RemoveAll(s, key, k) :: x in s
    decreases |s|
  {
    if s != [] {
      RemoveAllSubset(s[1..], key, k);
    }
  }
}
