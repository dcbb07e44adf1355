/**
  `Hackathon`: the event aggregate. It turns the start and end dates into calendar
  windows and enforces the rules that span several entities: the fixed duration,
  the caps on teams, participants and daily uploads, unique team names, and team
  members who are registered and sit in one team only. Dates are day numbers.
*/
module Hackathons {
  import opened Wrappers
  import opened Errors
  import opened JavaStrings
  import opened Lists
  import opened Utenti
  import opened Organizzatori
  import opened Documenti
  import opened Teams
  import opened Registrazioni

  const DURATA_REGISTRAZIONI_GIORNI: int := 2
  const DURATA_HACKATHON_GIORNI: int := 5
  const MAX_DOCUMENTI_AL_GIORNO_PER_TEAM: int := 3
  const MAX_TEAMS: int := 20

  /** The constructor's guards, in source order. The end date must not precede the
      start and the inclusive span must be exactly five days. */
  function EventArgsCheck(titolo: Option<string>, sede: Option<string>, dataInizio: int, dataFine: int,
                          maxTeamSize: int, organizzatore: Option<Organizzatore>): (r: Outcome<Error>)
    ensures titolo.None? || IsBlank(titolo.value) ==> r == Fail(IllegalArgument(Invalid(Titolo)))
    ensures titolo.Some? && !IsBlank(titolo.value) && sede.None? ==> r == Fail(IllegalArgument(Invalid(Sede)))
    ensures titolo.Some? && !IsBlank(titolo.value) && sede.Some? && dataFine < dataInizio
            ==> r == Fail(IllegalArgument(Invalid(Dates)))
    ensures titolo.Some? && !IsBlank(titolo.value) && sede.Some? && dataInizio <= dataFine
            && dataFine - dataInizio + 1 != DURATA_HACKATHON_GIORNI
            ==> r == Fail(IllegalArgument(Invalid(Duration)))
    ensures titolo.Some? && !IsBlank(titolo.value) && sede.Some? && dataFine == dataInizio + 4 && maxTeamSize <= 0
            ==> r == Fail(IllegalArgument(Invalid(MaxTeamSize)))
    ensures titolo.Some? && !IsBlank(titolo.value) && sede.Some? && dataFine == dataInizio + 4 && maxTeamSize > 0
            && organizzatore.None?
            ==> r == Fail(IllegalArgument(Invalid(TheOrganizer)))
    ensures r.Pass? <==>
      (titolo.Some? && !IsBlank(titolo.value) && sede.Some? && dataFine == dataInizio + 4
       && maxTeamSize > 0 && organizzatore.Some?)
  {
    if titolo.None? || IsBlank(titolo.value) then Fail(IllegalArgument(Invalid(Titolo)))
    else if sede.None? then Fail(IllegalArgument(Invalid(Sede)))
    else if dataFine < dataInizio then Fail(IllegalArgument(Invalid(Dates)))
    else if dataFine - dataInizio + 1 != DURATA_HACKATHON_GIORNI then Fail(IllegalArgument(Invalid(Duration)))
    else if maxTeamSize <= 0 then Fail(IllegalArgument(Invalid(MaxTeamSize)))
    else if organizzatore.None? then Fail(IllegalArgument(Invalid(TheOrganizer)))
    else Pass
  }

  /** `normalizeTeamName`: `""` for null, otherwise `trim().toUpperCase(Locale.ROOT)`. */
  function NormalizeTeamName(name: Option<string>): string {
    if name.None? then "" else ToUpper(Trim(name.value))
  }

  /** A normalised name is already trimmed and upper-case, so normalising it again
      changes nothing: the comparison it serves is an equivalence on names. */
  lemma NormalizeTeamNameIdempotent(name: Option<string>)
    ensures Trim(NormalizeTeamName(name)) == NormalizeTeamName(name)
    ensures ToUpper(NormalizeTeamName(name)) == NormalizeTeamName(name)
    ensures NormalizeTeamName(Some(NormalizeTeamName(name))) == NormalizeTeamName(name)
  {
    if name.Some? {
      var t := Trim(name.value);
      TrimIdempotent(name.value);
      TrimToUpperCommute(t);
      ToUpperIdempotent(t);
    }
  }

  /** Names that differ in surrounding spaces and letter case collide. */
  lemma RocketNamesCollide()
    ensures NormalizeTeamName(Some("Rocket")) == NormalizeTeamName(Some(" rocket "))
  {
    var padded := " rocket ";
    assert padded[1..] == "rocket ";
    assert TrimStart("rocket ") == "rocket ";
    assert TrimStart(padded) == "rocket ";
    assert "rocket "[..6] == "rocket";
    assert TrimEnd("rocket") == "rocket";
    assert TrimEnd("rocket ") == "rocket";
    assert Trim(padded) == "rocket";
    TrimOfTrimmed("Rocket");
    UpperCaseRocket();
  }

  lemma UpperCaseRocket()
    ensures ToUpper("rocket") == ToUpper("Rocket")
  {
    forall i | 0 <= i < 6 ensures ToUpper("rocket")[i] == ToUpper("Rocket")[i] {
      if i > 0 {
        assert "rocket"[i] == "Rocket"[i];
      }
    }
  }

  /** The key team names are compared by. */
  function NormalizedName(t: Team): string {
    NormalizeTeamName(Some(t.nome))
  }

  /** The user with this id is a member of team `t`. */
  predicate InTeam(t: Team, id: int)
    reads t
  {
    HasKey(t.membri, UtenteKey, id)
  }

  /** No user belongs to two different teams of `ts`. */
  ghost predicate Exclusive(ts: seq<Team>)
    reads ts
  {
    forall t1, t2, id | t1 in ts && t2 in ts && t1 != t2 && InTeam(t1, id) :: !InTeam(t2, id)
  }

  /** The position of the first team of `ts` that has the user as a member, or `|ts|`. */
  function FirstTeamWith(ts: seq<Team>, id: int): (r: nat)
    reads ts
    ensures r <= |ts|
    ensures r < |ts| ==> InTeam(ts[r], id)
    ensures forall k | 0 <= k < r :: !InTeam(ts[k], id)
    decreases |ts|
  {
    if ts == [] then 0
    else if InTeam(ts[0], id) then 0
    else 1 + FirstTeamWith(ts[1..], id)
  }

  /** When no user is in two teams, the team found first is the user's only team. */
  lemma ExclusiveFindsTheTeam(ts: seq<Team>, t: Team, id: int)
    requires Exclusive(ts) && t in ts && InTeam(t, id)
    ensures FirstTeamWith(ts, id) < |ts| && ts[FirstTeamWith(ts, id)] == t
  {
    var i :| 0 <= i < |ts| && ts[i] == t;
    var f := FirstTeamWith(ts, id);
    assert f <= i;
  }

  /** Appending a team none of whose members is in a team keeps users in at most one team. */
  lemma ExclusiveAppend(ts: seq<Team>, t: Team)
    requires Exclusive(ts) && t !in ts
    requires forall id | InTeam(t, id) :: FirstTeamWith(ts, id) == |ts|
    ensures Exclusive(ts + [t])
  {
    var ts' := ts + [t];
    forall t1, t2, id | t1 in ts' && t2 in ts' && t1 != t2 && InTeam(t1, id)
      ensures !InTeam(t2, id)
    {
      if t1 == t {
        assert t2 in ts;
        var j :| 0 <= j < |ts| && ts[j] == t2;
        assert FirstTeamWith(ts, id) == |ts|;
      } else if t2 == t {
        assert t1 in ts;
        var j :| 0 <= j < |ts| && ts[j] == t1;
      }
    }
  }

  /** The number of documents whose timestamp falls on `day`. */
  function CountOnDay(docs: seq<Documento>, day: int): (r: nat)
    ensures r <= |docs|
  {
    if docs == [] then 0
    else CountOnDay(docs[..|docs| - 1], day) + (if DataDi(docs[|docs| - 1]) == day then 1 else 0)
  }

  /** The daily cap holds on every day when each upload is stamped with the day it is
      made and was accepted because fewer than three documents carry that day. */
  lemma {:induction false} DailyCapPreserved(docs: seq<Documento>, d: Documento, oggi: int)
    requires forall day :: CountOnDay(docs, day) <= MAX_DOCUMENTI_AL_GIORNO_PER_TEAM
    requires CountOnDay(docs, oggi) < MAX_DOCUMENTI_AL_GIORNO_PER_TEAM
    requires DataDi(d) == oggi
    ensures forall day :: CountOnDay(docs + [d], day) <= MAX_DOCUMENTI_AL_GIORNO_PER_TEAM
  {
    forall day ensures CountOnDay(docs + [d], day) <= MAX_DOCUMENTI_AL_GIORNO_PER_TEAM {
      assert (docs + [d])[..|docs|] == docs;
    }
  }

  /** The phase label of the event on a given day, tested in the order the user
      interface tests it. */
  datatype Fase = Durante | PeriodoRegistrazioni | Terminato | NonAncoraAperte | ChiuseInAttesa

  class Hackathon {
    const titolo: string
    const sede: string
    const dataInizio: int
    const dataFine: int
    const maxPartecipanti: int
    const maxTeamSize: int
    const organizzatore: Organizzatore
    var giudici: seq<Utente>
    var registrazioni: seq<Registrazione<Hackathon>>
    var teams: seq<Team>
    var descrizioneProblema: Option<string>

    /** The class invariant: what the constructor checks and every add operation keeps. */
    predicate Valid()
      reads this, teams
    {
      && EventArgsCheck(Some(titolo), Some(sede), dataInizio, dataFine, maxTeamSize, Some(organizzatore)).Pass?
      && maxPartecipanti == MAX_TEAMS * maxTeamSize
      && DistinctKeys(giudici, UtenteKey)
      && DistinctKeys(registrazioni, RegistrazioneUserKey)
      && (forall r | r in registrazioni :: r.hackathon == this)
      && |registrazioni| <= maxPartecipanti
      && |teams| <= MAX_TEAMS
      && DistinctKeys(teams, TeamKey)
      && DistinctKeys(teams, NormalizedName)
      && (forall t | t in teams :: t.Valid())
      && (descrizioneProblema.Some? ==> !IsBlank(descrizioneProblema.value))
    }

    /** Every member of every team is registered to the event. */
    ghost predicate MembersRegistered()
      reads this, teams
    {
      forall t, id | t in teams && InTeam(t, id) :: HasKey(registrazioni, RegistrazioneUserKey, id)
    }

    /** `new Hackathon(...)` on arguments that pass the guards; the `maxPartecipanti`
        argument is ignored and the cap is derived from the team size. */
    constructor (titolo: string, sede: string, dataInizio: int, dataFine: int,
                 maxPartecipanti: int, maxTeamSize: int, organizzatore: Organizzatore)
      requires EventArgsCheck(Some(titolo), Some(sede), dataInizio, dataFine, maxTeamSize, Some(organizzatore)).Pass?
      ensures this.titolo == titolo && this.sede == sede && this.organizzatore == organizzatore
      ensures this.dataInizio == dataInizio && this.dataFine == dataFine && this.maxTeamSize == maxTeamSize
      ensures this.maxPartecipanti == MAX_TEAMS * maxTeamSize
      ensures giudici == [] && registrazioni == [] && teams == [] && descrizioneProblema == None
      ensures Valid() && MembersRegistered() && Exclusive(teams)
    {
      this.titolo := titolo;
      this.sede := sede;
      this.dataInizio := dataInizio;
      this.dataFine := dataFine;
      this.maxTeamSize := maxTeamSize;
      this.organizzatore := organizzatore;
      this.maxPartecipanti := MAX_TEAMS * maxTeamSize;
      giudici := [];
      registrazioni := [];
      teams := [];
      descrizioneProblema := None;
    }

    /** `new Hackathon(...)` with its exceptions. */
    static method Create(titolo: Option<string>, sede: Option<string>, dataInizio: int, dataFine: int,
                         maxPartecipanti: int, maxTeamSize: int, organizzatore: Option<Organizzatore>)
      returns (r: Result<Hackathon, Error>)
      ensures r.Failure? <==> EventArgsCheck(titolo, sede, dataInizio, dataFine, maxTeamSize, organizzatore).Fail?
      ensures r.Failure? ==> r.error == EventArgsCheck(titolo, sede, dataInizio, dataFine, maxTeamSize, organizzatore).error
      ensures r.Success? ==>
        (fresh(r.value) && r.value.Valid() && r.value.MembersRegistered() && Exclusive(r.value.teams)
         && r.value.titolo == titolo.value && r.value.sede == sede.value
         && r.value.organizzatore == organizzatore.value
         && r.value.dataInizio == dataInizio && r.value.dataFine == dataFine
         && r.value.maxTeamSize == maxTeamSize && r.value.maxPartecipanti == MAX_TEAMS * maxTeamSize
         && r.value.giudici == [] && r.value.registrazioni == [] && r.value.teams == []
         && r.value.descrizioneProblema == None)
    {
      var check := EventArgsCheck(titolo, sede, dataInizio, dataFine, maxTeamSize, organizzatore);
      if check.Fail? {
        return Failure(check.error);
      }
      var h := new Hackathon(titolo.value, sede.value, dataInizio, dataFine, maxPartecipanti, maxTeamSize,
                             organizzatore.value);
      return Success(h);
    }

    /** `getDataChiusuraRegistrazioni`: the last day of registrations, start − 3. */
    function DataChiusuraRegistrazioni(): int {
      dataInizio - 3
    }

    /** `getDataInizioRegistrazioni`: the first day of registrations, two days inclusive
        before the closing day. */
    function DataInizioRegistrazioni(): int {
      DataChiusuraRegistrazioni() - (DURATA_REGISTRAZIONI_GIORNI - 1)
    }

    /** `isRegistrazioneConsentita`: both ends of the window included. */
    predicate IsRegistrazioneConsentita(oggi: int) {
      DataInizioRegistrazioni() <= oggi <= DataChiusuraRegistrazioni()
    }

    /** `isDuranteHackathon`: start and end included. */
    predicate IsDuranteHackathon(oggi: int) {
      dataInizio <= oggi <= dataFine
    }

    /** `isVotazioneConsentita`: from the end day on. */
    predicate IsVotazioneConsentita(oggi: int) {
      oggi >= dataFine
    }

    /** The registration window is exactly [start − 4, start − 3]: two days that end
        two full days before the event, so it never meets the event days; the event
        days and the voting days share exactly the end day. */
    lemma WindowFacts(oggi: int)
      requires Valid()
      ensures IsRegistrazioneConsentita(oggi) <==> dataInizio - 4 <= oggi <= dataInizio - 3
      ensures DataChiusuraRegistrazioni() - DataInizioRegistrazioni() + 1 == DURATA_REGISTRAZIONI_GIORNI
      ensures !(IsRegistrazioneConsentita(oggi) && (IsDuranteHackathon(oggi) || IsVotazioneConsentita(oggi)))
      ensures IsDuranteHackathon(oggi) && IsVotazioneConsentita(oggi) <==> oggi == dataFine
      ensures IsDuranteHackathon(oggi) <==> dataInizio <= oggi <= dataInizio + DURATA_HACKATHON_GIORNI - 1
    {
    }

    /** The phase label of `getFaseLabel`, first matching test wins. */
    function FaseDi(oggi: int): Fase {
      if IsDuranteHackathon(oggi) then Durante
      else if IsRegistrazioneConsentita(oggi) then PeriodoRegistrazioni
      else if IsVotazioneConsentita(oggi) then Terminato
      else if oggi < DataInizioRegistrazioni() then NonAncoraAperte
      else ChiuseInAttesa
    }

    /** On a valid event the phases cut the calendar into five consecutive intervals. */
    lemma FasiPartition(oggi: int)
      requires Valid()
      ensures FaseDi(oggi) == NonAncoraAperte <==> oggi < dataInizio - 4
      ensures FaseDi(oggi) == PeriodoRegistrazioni <==> dataInizio - 4 <= oggi <= dataInizio - 3
      ensures FaseDi(oggi) == ChiuseInAttesa <==> dataInizio - 2 <= oggi <= dataInizio - 1
      ensures FaseDi(oggi) == Durante <==> dataInizio <= oggi <= dataFine
      ensures FaseDi(oggi) == Terminato <==> oggi > dataFine
    {
    }

    /** `aggiungiGiudice(g)`: appends a judge not yet present (by id), or throws. */
    method AggiungiGiudice(g: Option<Utente>) returns (r: Outcome<Error>)
      requires Valid()
      modifies this
      ensures Valid()
      ensures g.None? ==> r == Fail(IllegalArgument(Invalid(TheJudge)))
      ensures g.Some? && HasKey(old(giudici), UtenteKey, g.value.id) ==> r == Fail(IllegalState(AlreadyPresent(TheJudge)))
      ensures r.Pass? <==> g.Some? && !HasKey(old(giudici), UtenteKey, g.value.id)
      ensures giudici == (if r.Pass? then old(giudici) + [g.value] else old(giudici))
      ensures registrazioni == old(registrazioni) && teams == old(teams)
      ensures descrizioneProblema == old(descrizioneProblema)
    {
      if g.None? {
        return Fail(IllegalArgument(Invalid(TheJudge)));
      }
      if HasKey(giudici, UtenteKey, g.value.id) {
        return Fail(IllegalState(AlreadyPresent(TheJudge)));
      }
      DistinctKeysAppend(giudici, UtenteKey, g.value);
      giudici := giudici + [g.value];
      return Pass;
    }

    /** `rimuoviGiudice(g)`: nothing on null, otherwise `List.remove` by id. */
    method RimuoviGiudice(g: Option<Utente>)
      requires Valid()
      modifies this
      ensures Valid()
      ensures giudici == (if g.None? then old(giudici) else RemoveFirst(old(giudici), UtenteKey, g.value.id))
      ensures g.Some? ==> !HasKey(giudici, UtenteKey, g.value.id)
      ensures registrazioni == old(registrazioni) && teams == old(teams)
      ensures descrizioneProblema == old(descrizioneProblema)
    {
      if g.None? {
        return;
      }
      RemoveFirstDistinct(giudici, UtenteKey, g.value.id);
      giudici := RemoveFirst(giudici, UtenteKey, g.value.id);
    }

    /** The guards of `registraUtente`, in source order. */
    function RegistrationCheck(u: Option<Utente>, oggi: int): (r: Outcome<Error>)
      reads this
      ensures u.None? ==> r == Fail(IllegalArgument(Invalid(TheUser)))
      ensures u.Some? && !IsRegistrazioneConsentita(oggi) ==> r == Fail(IllegalState(RegistrationsClosed))
      ensures r.Pass? <==>
        (u.Some? && IsRegistrazioneConsentita(oggi) && |registrazioni| < maxPartecipanti
         && !HasKey(registrazioni, RegistrazioneUserKey, u.value.id))
    {
      if u.None? then Fail(IllegalArgument(Invalid(TheUser)))
      else if !IsRegistrazioneConsentita(oggi) then Fail(IllegalState(RegistrationsClosed))
      else if |registrazioni| >= maxPartecipanti then Fail(IllegalState(EventFull))
      else if HasKey(registrazioni, RegistrazioneUserKey, u.value.id) then Fail(IllegalState(AlreadyRegistered))
      else Pass
    }

    /** `registraUtente(u, oggi)`: appends exactly one registration of `u` to this event. */
    method RegistraUtente(u: Option<Utente>, oggi: int) returns (r: Outcome<Error>)
      requires Valid()
      modifies this
      ensures Valid()
      ensures r == old(RegistrationCheck(u, oggi))
      ensures registrazioni == (if r.Pass? then old(registrazioni) + [Registrazione(u.value, this)] else old(registrazioni))
      ensures giudici == old(giudici) && teams == old(teams)
      ensures descrizioneProblema == old(descrizioneProblema)
      ensures old(MembersRegistered()) ==> MembersRegistered()
    {
      r := RegistrationCheck(u, oggi);
      if r.Pass? {
        var reg := Registrazione(u.value, this);
        DistinctKeysAppend(registrazioni, RegistrazioneUserKey, reg);
        registrazioni := registrazioni + [reg];
        assert forall id | HasKey(old(registrazioni), RegistrazioneUserKey, id) :: HasKey(registrazioni, RegistrazioneUserKey, id) by {
          forall id | HasKey(old(registrazioni), RegistrazioneUserKey, id)
            ensures HasKey(registrazioni, RegistrazioneUserKey, id)
          {
            var k :| 0 <= k < |old(registrazioni)| && RegistrazioneUserKey(old(registrazioni)[k]) == id;
            assert registrazioni[k] == old(registrazioni)[k];
          }
        }
      }
    }

    /** `rimuoviRegistrazione(u)`: nothing on null, otherwise `removeIf` on the user's id. */
    method RimuoviRegistrazione(u: Option<Utente>)
      requires Valid()
      modifies this
      ensures Valid()
      ensures registrazioni == (if u.None? then old(registrazioni)
                                else RemoveAll(old(registrazioni), RegistrazioneUserKey, u.value.id))
      ensures giudici == old(giudici) && teams == old(teams)
      ensures descrizioneProblema == old(descrizioneProblema)
      ensures u.Some? && old(MembersRegistered()) && (forall t | t in teams :: !InTeam(t, u.value.id)) ==>
                MembersRegistered()
      ensures old(Exclusive(teams)) ==> Exclusive(teams)
    {
      if u.None? {
        return;
      }
      var rest := RemoveAll(registrazioni, RegistrazioneUserKey, u.value.id);
      RemoveAllKeepsDistinct(registrazioni, u.value.id);
      registrazioni := rest;
    }

    /** `removeIf` keeps the registrations distinct and all of them about this event. */
    lemma {:induction false} RemoveAllKeepsDistinct(regs: seq<Registrazione<Hackathon>>, id: int)
      requires DistinctKeys(regs, RegistrazioneUserKey)
      requires forall r | r in regs :: r.hackathon == this
      ensures DistinctKeys(RemoveAll(regs, RegistrazioneUserKey, id), RegistrazioneUserKey)
      ensures forall r | r in RemoveAll(regs, RegistrazioneUserKey, id) :: r.hackathon == this
      decreases |regs|
    {
      if regs != [] {
        var tail := regs[1..];
        assert forall i | 0 <= i < |tail| :: tail[i] == regs[i + 1];
        RemoveAllKeepsDistinct(tail, id);
        var rt := RemoveAll(tail, RegistrazioneUserKey, id);
        var r := RemoveAll(regs, RegistrazioneUserKey, id);
        if RegistrazioneUserKey(regs[0]) != id {
          assert r == [regs[0]] + rt;
          forall i, j | 0 <= i < j < |r|
            ensures RegistrazioneUserKey(r[i]) != RegistrazioneUserKey(r[j])
          {
            if i == 0 {
              assert r[j] == rt[j - 1];
              assert HasKey(rt, RegistrazioneUserKey, RegistrazioneUserKey(r[j]));
              assert HasKey(tail, RegistrazioneUserKey, RegistrazioneUserKey(r[j]));
            } else {
              assert r[i] == rt[i - 1] && r[j] == rt[j - 1];
            }
          }
        }
      }
    }

    /** `isUtenteRegistrato(u)`: false on null; otherwise the list holds a registration
        that `equals` the pair (u, this event). */
    function IsUtenteRegistrato(u: Option<Utente>): (r: bool)
      requires Valid()
      reads this, teams
      ensures r <==> u.Some? && exists reg | reg in registrazioni :: Registrazioni.Equals(reg, Registrazione(u.value, this))
      ensures u.Some? ==> (r <==> HasKey(registrazioni, RegistrazioneUserKey, u.value.id))
    {
      if u.None? then false
      else
        var b := HasKey(registrazioni, RegistrazioneUserKey, u.value.id);
        assert b ==> exists reg | reg in registrazioni :: Registrazioni.Equals(reg, Registrazione(u.value, this)) by {
          if b {
            var k :| 0 <= k < |registrazioni| && RegistrazioneUserKey(registrazioni[k]) == u.value.id;
            assert Registrazioni.Equals(registrazioni[k], Registrazione(u.value, this));
          }
        }
        b
    }

    /** A member passes the per-member checks of `aggiungiTeam`: registered, and in no team. */
    predicate MemberOk(u: Utente)
      reads this, teams
    {
      HasKey(registrazioni, RegistrazioneUserKey, u.id) && FirstTeamWith(teams, u.id) == |teams|
    }

    /** The reason the first failing member check gives, or `None`. */
    function MemberCheck(ms: seq<Utente>): (r: Option<Reason>)
      reads this, teams
      ensures r.None? <==> forall k | 0 <= k < |ms| :: MemberOk(ms[k])
      decreases |ms|
    {
      if ms == [] then None
      else if !HasKey(registrazioni, RegistrazioneUserKey, ms[0].id) then Some(MemberNotRegistered)
      else if FirstTeamWith(teams, ms[0].id) < |teams| then Some(MemberInAnotherTeam)
      else
        var r := MemberCheck(ms[1..]);
        assert r.None? <==> forall k | 0 <= k < |ms| :: MemberOk(ms[k]) by {
          assert forall k | 1 <= k < |ms| :: ms[k] == ms[1..][k - 1];
        }
        r
    }

    /** The member loop reports the first member that fails, with its reason. */
    lemma {:induction false} MemberCheckFirstFailure(ms: seq<Utente>, i: int)
      requires 0 <= i < |ms|
      requires forall k | 0 <= k < i :: MemberOk(ms[k])
      requires !MemberOk(ms[i])
      ensures MemberCheck(ms) == Some(if HasKey(registrazioni, RegistrazioneUserKey, ms[i].id)
                                      then MemberInAnotherTeam else MemberNotRegistered)
      decreases i
    {
      if i > 0 {
        assert MemberOk(ms[0]);
        assert forall k | 0 <= k < i - 1 :: ms[1..][k] == ms[k + 1];
        MemberCheckFirstFailure(ms[1..], i - 1);
      }
    }

    /** The guards of `aggiungiTeam`, in source order. */
    function TeamAddCheck(t: Team?, oggi: int): (r: Option<Error>)
      reads this, teams, t
    {
      if t == null then Some(IllegalArgument(Invalid(TheTeam)))
      else if |teams| >= MAX_TEAMS then Some(IllegalState(TooManyTeams))
      else if HasKey(teams, NormalizedName, NormalizedName(t)) then Some(IllegalState(TeamNameInUse))
      else if !IsRegistrazioneConsentita(oggi) then Some(IllegalState(TeamChangesClosed))
      else if HasKey(teams, TeamKey, t.id) then Some(IllegalState(AlreadyPresent(TheTeam)))
      else if t.membri == [] then Some(IllegalArgument(TeamWithoutMembers))
      else if |t.membri| > maxTeamSize then Some(IllegalArgument(TeamTooLarge))
      else match MemberCheck(t.membri)
        case Some(reason) => Some(IllegalState(reason))
        case None => None
    }

    /** `aggiungiTeam` accepts a team exactly when there is room, its name (trimmed,
        upper-cased) and id are new, registrations are open, it has between 1 and
        `maxTeamSize` members, and every member is registered and in no team. */
    lemma TeamAddCheckPassesIff(t: Team?, oggi: int)
      ensures TeamAddCheck(t, oggi) == None <==>
        (t != null && |teams| < MAX_TEAMS
         && (forall k | 0 <= k < |teams| :: NormalizedName(teams[k]) != NormalizedName(t))
         && IsRegistrazioneConsentita(oggi)
         && (forall k | 0 <= k < |teams| :: teams[k].id != t.id)
         && 1 <= |t.membri| <= maxTeamSize
         && (forall k | 0 <= k < |t.membri| :: HasKey(registrazioni, RegistrazioneUserKey, t.membri[k].id)
                                              && FirstTeamWith(teams, t.membri[k].id) == |teams|))
    {
      if t != null {
        assert HasKey(teams, NormalizedName, NormalizedName(t))
           <==> !(forall k | 0 <= k < |teams| :: NormalizedName(teams[k]) != NormalizedName(t));
        assert HasKey(teams, TeamKey, t.id) <==> !(forall k | 0 <= k < |teams| :: teams[k].id != t.id);
      }
    }

    /** `trovaTeamDiUtente(u)`: the first team having `u` as a member, or null. */
    method TrovaTeamDiUtente(u: Option<Utente>) returns (r: Team?)
      ensures u.None? ==> r == null
      ensures u.Some? ==>
        r == (if FirstTeamWith(teams, u.value.id) < |teams| then teams[FirstTeamWith(teams, u.value.id)] else null)
    {
      if u.None? {
        return null;
      }
      var i := 0;
      while i < |teams|
        invariant 0 <= i <= |teams|
        invariant forall k | 0 <= k < i :: !InTeam(teams[k], u.value.id)
      {
        if HasKey(teams[i].membri, UtenteKey, u.value.id) {
          assert InTeam(teams[i], u.value.id);
          assert FirstTeamWith(teams, u.value.id) == i;
          return teams[i];
        }
        i := i + 1;
      }
      return null;
    }

    /** The member loop of `aggiungiTeam`: each member in turn must be registered
        (`isUtenteRegistrato`) and in no team (`trovaTeamDiUtente` gives null). */
    method CheckMembers(ms: seq<Utente>) returns (r: Option<Reason>)
      requires Valid()
      ensures r == MemberCheck(ms)
    {
      var i := 0;
      while i < |ms|
        invariant 0 <= i <= |ms|
        invariant forall k | 0 <= k < i :: MemberOk(ms[k])
      {
        r := CheckMember(ms, i);
        if r.Some? {
          return;
        }
        i := i + 1;
      }
      return None;
    }

    /** One pass of the member loop, on the member at position `i`: the first failure
        found is the one `MemberCheck` reports. */
    method CheckMember(ms: seq<Utente>, i: int) returns (r: Option<Reason>)
      requires Valid() && 0 <= i < |ms|
      requires forall k | 0 <= k < i :: MemberOk(ms[k])
      ensures r.None? <==> MemberOk(ms[i])
      ensures r.Some? ==> r == MemberCheck(ms)
    {
      var u := ms[i];
      var registered := IsUtenteRegistrato(Some(u));
      if !registered {
        MemberCheckFirstFailure(ms, i);
        return Some(MemberNotRegistered);
      }
      var found := TrovaTeamDiUtente(Some(u));
      if found != null {
        MemberCheckFirstFailure(ms, i);
        return Some(MemberInAnotherTeam);
      }
      return None;
    }

    /** Members that pass the member loop are registered and in no team yet. */
    lemma MembersFree(t: Team)
      requires MemberCheck(t.membri) == None
      ensures forall id | InTeam(t, id) :: FirstTeamWith(teams, id) == |teams|
      ensures forall id | InTeam(t, id) :: HasKey(registrazioni, RegistrazioneUserKey, id)
    {
      forall id | InTeam(t, id)
        ensures FirstTeamWith(teams, id) == |teams| && HasKey(registrazioni, RegistrazioneUserKey, id)
      {
        var k :| 0 <= k < |t.membri| && UtenteKey(t.membri[k]) == id;
        assert MemberOk(t.membri[k]);
      }
    }

    /** `aggiungiTeam(t, oggi)`: appends exactly one team when every guard passes and
        leaves the list unchanged otherwise; users stay registered and in one team. */
    method AggiungiTeam(t: Team?, oggi: int) returns (r: Outcome<Error>)
      requires Valid() && (t != null ==> t.Valid())
      modifies this
      ensures Valid()
      ensures r.Pass? <==> old(TeamAddCheck(t, oggi)) == None
      ensures r.Fail? ==> r.error == old(TeamAddCheck(t, oggi)).value
      ensures teams == (if r.Pass? then old(teams) + [t] else old(teams))
      ensures giudici == old(giudici) && registrazioni == old(registrazioni)
      ensures descrizioneProblema == old(descrizioneProblema)
      ensures old(MembersRegistered()) ==> MembersRegistered()
      ensures old(Exclusive(teams)) ==> Exclusive(teams)
    {
      if t == null {
        return Fail(IllegalArgument(Invalid(TheTeam)));
      }
      if |teams| >= MAX_TEAMS {
        return Fail(IllegalState(TooManyTeams));
      }
      if HasKey(teams, NormalizedName, NormalizedName(t)) {
        return Fail(IllegalState(TeamNameInUse));
      }
      if !IsRegistrazioneConsentita(oggi) {
        return Fail(IllegalState(TeamChangesClosed));
      }
      if HasKey(teams, TeamKey, t.id) {
        return Fail(IllegalState(AlreadyPresent(TheTeam)));
      }
      if t.membri == [] {
        return Fail(IllegalArgument(TeamWithoutMembers));
      }
      if |t.membri| > maxTeamSize {
        return Fail(IllegalArgument(TeamTooLarge));
      }
      var failure := CheckMembers(t.membri);
      if failure.Some? {
        return Fail(IllegalState(failure.value));
      }
      AppendTeam(t);
      return Pass;
    }

    /** The final `teams.add(t)` of `aggiungiTeam`, once every guard has passed. */
    method AppendTeam(t: Team)
      requires Valid() && t.Valid()
      requires |teams| < MAX_TEAMS
      requires !HasKey(teams, TeamKey, t.id) && !HasKey(teams, NormalizedName, NormalizedName(t))
      requires MemberCheck(t.membri) == None
      modifies this
      ensures Valid()
      ensures teams == old(teams) + [t]
      ensures giudici == old(giudici) && registrazioni == old(registrazioni)
      ensures descrizioneProblema == old(descrizioneProblema)
      ensures old(MembersRegistered()) ==> MembersRegistered()
      ensures old(Exclusive(teams)) ==> Exclusive(teams)
    {
      TeamNotInList(teams, t);
      MembersFree(t);
      if Exclusive(teams) {
        ExclusiveAppend(teams, t);
      }
      TeamAppendDistinct(teams, t);
      var after := teams + [t];
      assert forall x | x in after :: x.Valid();
      ghost var registered := MembersRegistered();
      if registered {
        forall x, id | x in after && InTeam(x, id) ensures HasKey(registrazioni, RegistrazioneUserKey, id) {
          if x != t {
            assert x in teams;
          }
        }
      }
      teams := after;
    }

    /** `rimuoviTeam(t)`: nothing on null, otherwise `List.remove` by id. */
    method RimuoviTeam(t: Team?)
      requires Valid()
      modifies this
      ensures Valid()
      ensures teams == (if t == null then old(teams) else RemoveFirst(old(teams), TeamKey, t.id))
      ensures forall x | x in teams :: x in old(teams)
      ensures giudici == old(giudici) && registrazioni == old(registrazioni)
      ensures descrizioneProblema == old(descrizioneProblema)
      ensures old(MembersRegistered()) ==> MembersRegistered()
      ensures old(Exclusive(teams)) ==> Exclusive(teams)
    {
      if t == null {
        return;
      }
      var rest := RemoveFirst(teams, TeamKey, t.id);
      RemoveFirstSubset(teams, TeamKey, t.id);
      RemoveFirstDistinct(teams, TeamKey, t.id);
      RemoveFirstKeepsDistinct(teams, TeamKey, NormalizedName, t.id);
      teams := rest;
    }

    /** The guards of `pubblicaProblema`, in source order. */
    function PublishCheck(descrizione: Option<string>, oggi: int): (r: Outcome<Error>)
      ensures descrizione.None? || IsBlank(descrizione.value) ==> r == Fail(IllegalArgument(Invalid(Description)))
      ensures r.Pass? <==> descrizione.Some? && !IsBlank(descrizione.value) && oggi >= dataInizio
    {
      if descrizione.None? || IsBlank(descrizione.value) then Fail(IllegalArgument(Invalid(Description)))
      else if oggi < dataInizio then Fail(IllegalState(PublishBeforeStart))
      else Pass
    }

    /** `pubblicaProblema(descrizione, oggi)`: overwrites the problem text from the start
        day on; a later publication replaces an earlier one. */
    method PubblicaProblema(descrizione: Option<string>, oggi: int) returns (r: Outcome<Error>)
      requires Valid()
      modifies this
      ensures Valid()
      ensures r == PublishCheck(descrizione, oggi)
      ensures descrizioneProblema == (if r.Pass? then descrizione else old(descrizioneProblema))
      ensures giudici == old(giudici) && registrazioni == old(registrazioni) && teams == old(teams)
    {
      r := PublishCheck(descrizione, oggi);
      if r.Pass? {
        descrizioneProblema := descrizione;
      }
    }

    /** The guards of `caricaDocumento`, in source order. */
    function UploadCheck(team: Team?, d: Option<Documento>, oggi: int): (r: Outcome<Error>)
      reads this, team
      ensures r.Pass? <==>
        (team != null && d.Some? && HasKey(teams, TeamKey, team.id) && IsDuranteHackathon(oggi)
         && descrizioneProblema.Some? && CountOnDay(team.documenti, oggi) < MAX_DOCUMENTI_AL_GIORNO_PER_TEAM)
    {
      if team == null then Fail(IllegalArgument(Invalid(TheTeam)))
      else if d.None? then Fail(IllegalArgument(Invalid(TheDocument)))
      else if !HasKey(teams, TeamKey, team.id) then Fail(IllegalArgument(TeamNotRegistered))
      else if !IsDuranteHackathon(oggi) then Fail(IllegalState(UploadOutsideEvent))
      else if descrizioneProblema.None? then Fail(IllegalState(ProblemNotPublished))
      else if CountOnDay(team.documenti, oggi) >= MAX_DOCUMENTI_AL_GIORNO_PER_TEAM then Fail(IllegalState(DailyLimitReached))
      else Pass
    }

    /** `caricaDocumento(team, d, oggi)`: appends one document to the given team (the
        object passed in, found in the list by id) when every guard passes. */
    method CaricaDocumento(team: Team?, d: Option<Documento>, oggi: int) returns (r: Outcome<Error>)
      requires Valid() && (team != null ==> team.Valid())
      modifies team
      ensures Valid() && (team != null ==> team.Valid())
      ensures r == old(UploadCheck(team, d, oggi))
      ensures team != null ==>
        team.documenti == (if r.Pass? then old(team.documenti) + [d.value] else old(team.documenti))
      ensures team != null ==> team.membri == old(team.membri)
    {
      r := UploadCheck(team, d, oggi);
      if r.Pass? {
        var inner := team.CaricaDocumento(d);
      }
    }
  }

  /** Changing only the documents of teams keeps the event's invariant, its
      registered members and its one-team-per-user property. */
  twostate lemma MembershipFramed(h: Hackathon)
    requires unchanged(h)
    requires forall t | t in h.teams :: t.membri == old(t.membri)
    requires old(h.Valid())
    ensures h.Valid()
    ensures old(h.MembersRegistered()) ==> h.MembersRegistered()
    ensures old(Exclusive(h.teams)) ==> Exclusive(h.teams)
  {
    forall t | t in h.teams ensures t.Valid() {
      assert old(t.Valid());
    }
    forall t, id | t in h.teams ensures InTeam(t, id) == old(InTeam(t, id)) {
    }
  }

  /** Appending a team whose id and normalised name are new keeps both keys distinct. */
  lemma TeamAppendDistinct(ts: seq<Team>, t: Team)
    requires DistinctKeys(ts, TeamKey) && DistinctKeys(ts, NormalizedName)
    requires !HasKey(ts, TeamKey, t.id) && !HasKey(ts, NormalizedName, NormalizedName(t))
    ensures DistinctKeys(ts + [t], TeamKey) && DistinctKeys(ts + [t], NormalizedName)
  {
    DistinctKeysAppend(ts, TeamKey, t);
    DistinctKeysAppend(ts, NormalizedName, t);
  }

  /** A team whose id is not in the list is not one of its objects. */
  lemma TeamNotInList(ts: seq<Team>, t: Team)
    requires !HasKey(ts, TeamKey, t.id)
    ensures t !in ts
  {
    forall k | 0 <= k < |ts| ensures ts[k] != t {
      assert TeamKey(ts[k]) != t.id;
    }
  }
}
