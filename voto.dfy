/**
  `Voto`: the final mark a judge gives a team, an immutable value on the 0..10 scale.
*/
module Voti {
  import opened Wrappers
  import opened Errors
  import opened Utenti
  import opened Teams

  /** A final mark: an integer of the closed scale [0, 10]. */
  type Punteggio = p: int | 0 <= p <= 10

  datatype Voto = Voto(punteggio: Punteggio, giudice: Utente, team: Team)

  /** The constructor `Voto(punteggio, giudice, team)`: range, then judge, then team;
      the accessors give back exactly the arguments. */
  function NewVoto(punteggio: int, giudice: Option<Utente>, team: Team?): (r: Result<Voto, Error>)
    ensures !(0 <= punteggio <= 10) ==> r == Failure(IllegalArgument(Invalid(Score)))
    ensures 0 <= punteggio <= 10 && giudice.None? ==> r == Failure(IllegalArgument(Invalid(TheJudge)))
    ensures 0 <= punteggio <= 10 && giudice.Some? && team == null ==> r == Failure(IllegalArgument(Invalid(TheTeam)))
    ensures r.Success? <==> 0 <= punteggio <= 10 && giudice.Some? && team != null
    ensures r.Success? ==>
      (r.value.punteggio == punteggio && r.value.giudice == giudice.value && r.value.team == team)
  {
    if punteggio < 0 || punteggio > 10 then Failure(IllegalArgument(Invalid(Score)))
    else if giudice.None? then Failure(IllegalArgument(Invalid(TheJudge)))
    else if team == null then Failure(IllegalArgument(Invalid(TheTeam)))
    else Success(Voto(punteggio, giudice.value, team))
  }

  /** The judge a vote is by, compared by id. */
  function VotoJudgeKey(v: Voto): int {
    v.giudice.id
  }

  /** The (judge, team) pair a vote is about, both compared by id. */
  function VotoPairKey(v: Voto): (int, int) {
    (v.giudice.id, v.team.id)
  }
}
