# Hackathon event engine — a Dafny model

This project models the domain core of the Hackhaton1 application. The application
runs one hackathon at a time:

- an organiser (`Organizzatore`) creates the event (`Hackathon`) with a start day and
  a five-day span;
- judges are added, up to three;
- users (`Utente`) register during a two-day registration window;
- users form teams (`Team`) of at most `maxTeamSize` members, one team per user;
- during the event, teams upload progress documents (`Documento`), at most three a
  day, and the judges mark each document;
- after the last day, the judges give final votes (`Voto`);
- a ranking orders the teams by a score that mixes the final votes and the document
  marks.

The model keeps the source's split:

- **The event aggregate** (`hackathon.dfy`, class `Hackathons.Hackathon`) holds:
  - the judges, registrations and teams as sequences that its methods reassign;
  - the date windows, as predicates on integer day numbers;
  - every guard of the add operations, as a check function stated in source order.

  Its invariant `Valid()` says:
  - team ids are unique, and so are normalised team names;
  - user ids are unique among registrations;
  - no more than 20 teams, and no more than 20 × `maxTeamSize` registrations;
  - every registration refers to this event.

  Two further invariants are proved preserved by every operation that touches the
  teams:
  - `MembersRegistered()`: every team member holds a registration;
  - `Exclusive(teams)`: a user is in at most one team.
- **The orchestration layer** (`controller.dfy`, class `HackathonController.Controller`)
  holds:
  - the two organiser switches: registrations open, uploads enabled;
  - the final votes;
  - the per-team document points.

  Each write follows the source's "change the model, persist, undo on failure"
  pattern. The persistence outcome is a `persistOk` input. Every method states that a
  failed write leaves the model as it was. The one exception is the source's own:
  the switches that a call first synchronises with the date keep their synchronised
  value when a later guard fails.
- **Teams** (`team.dfy`, class `Teams.Team`) update their member and document lists
  in place.
- **The value objects** are datatypes with validating constructors that return a
  `Result`: `Utente`, `Organizzatore`, `Voto`, `Registrazione` and `Documento`.
  - A Java `throw` becomes an `Error` value (`errors.dfy`). Its constructor names the
    exception class, and its reason names the guard.
  - A nullable argument that the source checks is an `Option`.
- **Scoring** (`punteggi.dfy`) holds:
  - the rounded mean of the judges' marks;
  - the progress mean over 15 slots;
  - the final-vote mean over all judges;
  - the 70/30 score;
  - the stable descending sort of the ranking.

  Arithmetic on doubles is modelled on `real`.
- **Java library behaviour** the core relies on is written out:
  - `String.trim`, `isBlank`, `length()` in UTF-16 code units and `toUpperCase(Locale.ROOT)`
    (`java_strings.dfy`);
  - `Objects.hash` of an id, with 32-bit wrap-around (`java_ints.dfy`);
  - `List.remove`, `removeIf` and `contains` on id-based `equals` (`lists.dfy`).

Identity follows the source's `equals`:

- users, judges, organisers and teams compare by id;
- a registration compares by user id and event reference;
- a final vote is a duplicate when its (judge, team) pair is already taken.

A judge (`Giudice`) adds nothing to `Utente` and is modelled as a `Utente` in the
judges list.

The registration window follows the code: it is [start − 4, start − 3], both ends
inclusive, and `Hackathon.getDataChiusuraRegistrazioni` returns start − 3.

`eliminaUtentePerId` leaves the user's final votes in place, as the source does. Only
judge deletion removes votes.

## Model

| member | source | states |
|---|---|---|
| JavaInts.ObjectsHash | Hackhaton1/src/model/Utente.java:145-147 | `Objects.hash(id)` is `31 + id` wrapped to a 32-bit int; the result is always an int32 and equals `31 + id` when that does not overflow |
| JavaInts.ToInt32 | Hackhaton1/src/model/Utente.java:145-147 | the 32-bit wrap-around: the result is an int32, congruent to the input modulo 2^32, and the input itself when it already fits |
| JavaStrings.Trim | Hackhaton1/src/model/Utente.java:67-80 | `String.trim`: the result is a slice `s[i..j]` of the input with every character before `i` and from `j` on at most U+0020; it starts and ends with a character above U+0020, and is empty exactly when every input character is at most U+0020 |
| JavaStrings.Utf16Length | Hackhaton1/src/model/Utente.java:75 | `String.length()`: between the number of characters and twice that, and equal to it exactly when no character lies above U+FFFF |
| JavaStrings.Utf16LengthAppend | Hackhaton1/src/model/Utente.java:106-108 | `length()` of a concatenation is the sum of the lengths |
| JavaStrings.TrimFixedIff | Hackhaton1/src/model/Utente.java:67-80 | trimming leaves a string unchanged if and only if it has no leading or trailing character at or below U+0020 |
| JavaStrings.TrimIdempotent | Hackhaton1/src/model/Utente.java:67-80 | trimming twice equals trimming once, so a stored trimmed name validates to itself |
| JavaStrings.TrimToUpperCommute | Hackhaton1/src/model/Hackathon.java:692-697 | trimming and upper-casing commute, so the normalised team name does not depend on their order |
| JavaStrings.ToUpperIdempotent | Hackhaton1/src/model/Hackathon.java:692-697 | upper-casing twice equals upper-casing once |
| JavaStrings.TrimLeadingSpace | Hackhaton1/src/model/Organizzatore.java:61-67 | a leading space never survives trimming: `trim(" " + s) == trim(s)` |
| Lists.RemoveFirst | Hackhaton1/src/model/Team.java:71-76 | `List.remove(o)` on id equality: exactly one element fewer when the key is present, the list unchanged otherwise, and no key appears that was not there |
| Lists.RemoveAll | Hackhaton1/src/model/Hackathon.java:472-477 | `removeIf` on a key: the key is gone afterwards and every other key is present exactly when it was before |
| Lists.DistinctKeysAppend | Hackhaton1/src/model/Hackathon.java:385-393 | appending an element whose key is new keeps the keys distinct |
| Lists.RemoveFirstSplit | Hackhaton1/src/controller/Controller.java:479-484 | removing an element that was just appended, with no earlier equal element, gives back the list before the append (the rollback undoes the add) |
| Lists.RemoveAllAppended | Hackhaton1/src/controller/Controller.java:564-569 | removing every registration of a user who was just appended, and had none before, gives back the list before the append |
| Lists.RemoveFirstDistinct | Hackhaton1/src/model/Hackathon.java:408-413 | removing by key from a list with distinct keys keeps the keys distinct and leaves no element with that key |
| Lists.RemoveFirstKeepsDistinct | Hackhaton1/src/model/Hackathon.java:568-573 | removing by one key keeps any other key distinct (team ids and normalised names both stay unique) |
| Lists.RemoveFirstSubset | Hackhaton1/src/model/Hackathon.java:568-573 | removal never adds elements: every element afterwards was there before |
| Documenti.NewDocumento | Hackhaton1/src/model/Documento.java:26-37 | null or blank content fails first, then a null date; on success the content is kept as given and the timestamp's day is the simulated day |
| Documenti.NewDocumentoKeepsContentAndDay | Hackhaton1/src/model/Documento.java:26-50 | content with surrounding spaces is accepted and stored untrimmed, and the document's day is the simulated day whatever the clock time |
| Registrazioni.NewRegistrazione | Hackhaton1/src/model/Registrazione.java:38-61 | a null user fails first, then a null event; on success the getters return exactly the arguments |
| Registrazioni.EqualsHashConsistent | Hackhaton1/src/model/Registrazione.java:87-106 | equality on (user by id, event by reference) is reflexive, symmetric and transitive, equal registrations hash equally, and the user's email does not matter |
| Voti.NewVoto | Hackhaton1/src/model/Voto.java:35-44 | a score outside 0..10 fails first, then a null judge, then a null team; on success the fields are exactly the arguments |
| Utenti.ValidateNomeCognome | Hackhaton1/src/model/Utente.java:67-80 | null fails with a NullPointerException; an empty trim fails as invalid, a trim shorter than 3 UTF-16 code units as too short; otherwise the trimmed value is returned and it is trimmed and at least 3 code units long |
| Utenti.ValidateNomeCognomeIdempotent | Hackhaton1/src/model/Utente.java:67-80 | validating an already validated name accepts it and returns it unchanged |
| Utenti.ValidateEmailAsWritten | Hackhaton1/src/model/Utente.java:49-53 | the email check as written: it passes if and only if the email is non-null and not blank, and it stores the trimmed email |
| Utenti.EmailOfControlCharacterStoredEmpty | Hackhaton1/src/model/Utente.java:49-53 | the email "\u0001" passes the check as written and is stored as the empty string |
| Utenti.ValidateEmail | Hackhaton1/src/model/Utente.java:49-53 | the corrected check: it passes if and only if the email is non-blank and its trim is non-empty, so a stored email is never empty |
| Utenti.ValidateEmailRefinesAsWritten | Hackhaton1/src/model/Utente.java:49-53 | the corrected check gives a different result from the check as written if and only if the check as written accepts the email and stores it empty |
| Utenti.NewUtente | Hackhaton1/src/model/Utente.java:41-55 | errors in source order (id ≤ 0, then the name, then the surname, then the email); it succeeds if and only if the id is positive, both trimmed names are at least 3 UTF-16 code units long and the email is neither blank nor trimmed to nothing; on success the id is kept and the names and email are the validated, trimmed values |
| Utenti.SupplementaryNameAccepted | Hackhaton1/src/model/Utente.java:75 | `length()` counts UTF-16 code units: a name of two characters above U+FFFF has length 4 and is accepted as it is |
| Utenti.NomeCompletoOfValid | Hackhaton1/src/model/Utente.java:106-108 | the full name of a valid user splits back into name, one space and surname, is already trimmed, and its `length()` is the names' lengths plus one, so at least 7 |
| Utenti.EqualsHashConsistent | Hackhaton1/src/model/Utente.java:133-147 | id equality is an equivalence, and equal users have equal hash codes |
| Organizzatori.ValidateMin3 | Hackhaton1/src/model/Organizzatore.java:61-67 | null and an empty trim fail as invalid, a trim shorter than 3 UTF-16 code units as too short; otherwise the trimmed value, at least 3 code units long, is returned |
| Organizzatori.SupplementaryValueAccepted | Hackhaton1/src/model/Organizzatore.java:65 | `length()` counts UTF-16 code units: a password of two characters above U+FFFF has length 4 and is accepted as it is |
| Organizzatori.NewOrganizzatore | Hackhaton1/src/model/Organizzatore.java:42-48 | errors in source order (id ≤ 0, then name, surname and password); it succeeds if and only if the id is positive and all three trimmed values are at least 3 UTF-16 code units long; on success the stored fields are the trimmed values |
| Organizzatori.CheckPasswordAfterCreation | Hackhaton1/src/model/Organizzatore.java:115-118 | after creation, the trimmed password is accepted, and the raw one is accepted if and only if it was already trimmed; a password given with a leading space is accepted at creation but refused at login |
| Organizzatori.NomeCompletoOfValid | Hackhaton1/src/model/Organizzatore.java:102-104 | the full name of a valid organiser splits back into name, space and surname, is already trimmed, and its `length()` is the names' lengths plus one, so at least 7 |
| Organizzatori.EqualsHashConsistent | Hackhaton1/src/model/Organizzatore.java:156-174 | equal organisers hash equally, and the password does not take part in equality |
| Teams.TeamArgsCheck | Hackhaton1/src/model/Team.java:19-24 | construction fails if and only if id ≤ 0 (checked first) or the name is null or blank |
| Teams.AddMemberCheck | Hackhaton1/src/model/Team.java:30-36 | adding fails if and only if the user is null or a member with the same id is present |
| Teams.AddMemberWithLimit | Hackhaton1/src/model/Team.java:46-58 | null and a non-positive limit fail, and otherwise the call succeeds; the result is true exactly when the team is below the limit and the user is absent (then the new size is within the limit), and false exactly when the team is full or already holds the user |
| Teams.WithoutLast | Hackhaton1/src/model/Team.java:82-87 | the empty list stays empty; otherwise the result is the list minus its last element |
| Teams.WithoutLastUndoesAppend | Hackhaton1/src/model/Team.java:63-87 | removing the last document straight after an upload restores the original list |
| Teams.Team.constructor | Hackhaton1/src/model/Team.java:19-24 | a new team has the given id and name and no members or documents |
| Teams.Team.Create | Hackhaton1/src/model/Team.java:19-24 | construction fails exactly when `TeamArgsCheck` fails, with its error; otherwise it yields a fresh empty team |
| Teams.Team.AggiungiMembro | Hackhaton1/src/model/Team.java:30-36 | the outcome is `AddMemberCheck`; the user is appended exactly on success; documents are untouched and member ids stay distinct |
| Teams.Team.AggiungiMembroConLimite | Hackhaton1/src/model/Team.java:46-58 | the result is `AddMemberWithLimit`; the user is appended exactly when it is true, so a team within the limit stays within it |
| Teams.Team.CaricaDocumento | Hackhaton1/src/model/Team.java:63-66 | fails if and only if the document is null; otherwise exactly that document is appended at the end; the members are untouched |
| Teams.Team.RimuoviMembro | Hackhaton1/src/model/Team.java:71-76 | null changes nothing; otherwise the member with that id is removed and no longer present |
| Teams.Team.RimuoviUltimoDocumento | Hackhaton1/src/model/Team.java:82-87 | the documents become `WithoutLast` of the old ones; the members are untouched |
| Teams.EqualsIffSameHash | Hackhaton1/src/model/Team.java:136-145 | two teams are equal if and only if their hash codes (their ids) are equal |
| Hackathons.EventArgsCheck | Hackhaton1/src/model/Hackathon.java:131-151 | the constructor's guards in source order: a blank title, then a missing venue, then an end before the start, then a span other than five days, then maxTeamSize ≤ 0, then a missing organiser; it passes if and only if none applies |
| Hackathons.Hackathon.constructor | Hackhaton1/src/model/Hackathon.java:123-166 | a valid event stores its arguments, has maxPartecipanti = 20 × maxTeamSize whatever was passed, and starts with no judges, registrations, teams or problem |
| Hackathons.Hackathon.Create | Hackhaton1/src/model/Hackathon.java:123-166 | construction fails exactly when `EventArgsCheck` fails, with its error; otherwise it yields a fresh valid event with the given title, venue, organiser, dates and team size and no judges, registrations, teams or problem statement |
| Hackathons.Hackathon.WindowFacts | Hackhaton1/src/model/Hackathon.java:303-369 | registration is allowed exactly on [start − 4, start − 3] (two days) and never during the event or voting; the event runs exactly from start to start + 4; the event and voting overlap only on the last day |
| Hackathons.Hackathon.FasiPartition | Hackhaton1/src/gui/SwingUi.java:1149-1155 | the phase label splits the calendar into five consecutive intervals: before start − 4, the window, the two waiting days, the event, after the end |
| Hackathons.NormalizeTeamNameIdempotent | Hackhaton1/src/model/Hackathon.java:692-697 | a normalised name is trimmed and upper-case, and normalising it again changes nothing |
| Hackathons.RocketNamesCollide | Hackhaton1/src/model/Hackathon.java:523-528 | names that differ only in case and surrounding spaces ("Rocket", " rocket ") normalise to the same key, so the second is refused |
| Hackathons.FirstTeamWith | Hackhaton1/src/model/Hackathon.java:581-591 | the position of the first team holding the user, or the length when none does; no earlier team holds the user |
| Hackathons.ExclusiveFindsTheTeam | Hackhaton1/src/model/Hackathon.java:581-591 | when every user is in at most one team, the first team found for a member is that member's team |
| Hackathons.ExclusiveAppend | Hackhaton1/src/model/Hackathon.java:543-552 | appending a team whose members are in no existing team keeps every user in at most one team |
| Hackathons.CountOnDay | Hackhaton1/src/model/Hackathon.java:668-670 | the number of documents dated on a day is at most the number of documents |
| Hackathons.DailyCapPreserved | Hackhaton1/src/model/Hackathon.java:668-680 | uploading a document dated today when today holds fewer than 3 keeps every day at 3 documents or fewer |
| Hackathons.Hackathon.AggiungiGiudice | Hackhaton1/src/model/Hackathon.java:385-393 | null fails first, then an already present judge id; otherwise exactly the judge is appended; registrations, teams and problem are unchanged |
| Hackathons.Hackathon.RimuoviGiudice | Hackhaton1/src/model/Hackathon.java:408-413 | null changes nothing; otherwise the judge with that id is removed and absent afterwards; nothing else changes |
| Hackathons.Hackathon.RegistrationCheck | Hackhaton1/src/model/Hackathon.java:432-457 | null user first, then outside the window; it passes if and only if the user is given, the day is in the window, the event is not full and the user id is not yet registered |
| Hackathons.Hackathon.RegistraUtente | Hackhaton1/src/model/Hackathon.java:432-457 | the outcome is `RegistrationCheck`; exactly one registration (user, this event) is appended on success; judges and teams are unchanged and every team member stays registered |
| Hackathons.Hackathon.RimuoviRegistrazione | Hackhaton1/src/model/Hackathon.java:472-477 | null changes nothing; otherwise every registration of that user id is removed; team members stay registered when the user is in no team |
| Hackathons.Hackathon.RemoveAllKeepsDistinct | Hackhaton1/src/model/Hackathon.java:472-477 | removing a user's registrations keeps user ids distinct and every registration bound to this event |
| Hackathons.Hackathon.IsUtenteRegistrato | Hackhaton1/src/model/Hackathon.java:485-490 | true if and only if the user is given and some registration equals (user, this event), which is the same as the user id being registered |
| Hackathons.Hackathon.MemberCheck | Hackhaton1/src/model/Hackathon.java:543-550 | no error if and only if every member is registered and in no team |
| Hackathons.Hackathon.MemberCheckFirstFailure | Hackhaton1/src/model/Hackathon.java:543-550 | the error reported is that of the first failing member: "not registered" before "already in a team" |
| Hackathons.Hackathon.CheckMembers | Hackhaton1/src/model/Hackathon.java:543-550 | the member loop returns exactly `MemberCheck` of the members |
| Hackathons.Hackathon.CheckMember | Hackhaton1/src/model/Hackathon.java:544-549 | one step of the member loop: no error exactly when this member is fine, and an error is the whole loop's result |
| Hackathons.Hackathon.TeamAddCheckPassesIff | Hackhaton1/src/model/Hackathon.java:514-553 | the team is accepted if and only if it is non-null, fewer than 20 teams exist, its normalised name is new, the day is in the window, its id is new, it has 1..maxTeamSize members, and every member is registered and in no team |
| Hackathons.Hackathon.TrovaTeamDiUtente | Hackhaton1/src/model/Hackathon.java:581-591 | null for a null user; otherwise the first team holding the user's id, or null when no team does |
| Hackathons.Hackathon.MembersFree | Hackhaton1/src/model/Hackathon.java:543-552 | members that pass the member check are registered and in no existing team |
| Hackathons.Hackathon.AggiungiTeam | Hackhaton1/src/model/Hackathon.java:514-553 | succeeds if and only if `TeamAddCheck` finds nothing, reporting its error otherwise; exactly the team is appended on success, the list is unchanged on failure; "members registered" and "one team per user" are preserved |
| Hackathons.Hackathon.AppendTeam | Hackhaton1/src/model/Hackathon.java:552 | appending an accepted team keeps the event's invariant, registered members and one team per user |
| Hackathons.Hackathon.RimuoviTeam | Hackhaton1/src/model/Hackathon.java:568-573 | null changes nothing; otherwise the team with that id is removed; no team appears; both membership invariants are preserved |
| Hackathons.Hackathon.PublishCheck | Hackhaton1/src/model/Hackathon.java:609-618 | a null or blank description fails first; publishing passes if and only if the text is non-blank and the day is not before the start |
| Hackathons.Hackathon.PubblicaProblema | Hackhaton1/src/model/Hackathon.java:609-620 | the outcome is `PublishCheck`; on success the description is overwritten, otherwise kept; the lists are unchanged |
| Hackathons.Hackathon.UploadCheck | Hackhaton1/src/model/Hackathon.java:650-678 | an upload passes if and only if team and document are given, the team id is in the event, the day is an event day, a problem is published and the team has fewer than 3 documents dated today |
| Hackathons.Hackathon.CaricaDocumento | Hackhaton1/src/model/Hackathon.java:650-681 | the outcome is `UploadCheck`; the document is appended to the team exactly on success; the members and the event are untouched |
| Hackathons.MembershipFramed | Hackhaton1/src/model/Hackathon.java:650-681 | changing a team's documents, and nothing else, keeps the event valid and both membership invariants |
| Hackathons.TeamAppendDistinct | Hackhaton1/src/model/Hackathon.java:519-535 | appending a team whose id and normalised name are new keeps both unique |
| Hackathons.TeamNotInList | Hackhaton1/src/model/Hackathon.java:533-535 | a team whose id is absent is not in the list |
| HackathonController.SyncFlagFacts | Hackhaton1/src/controller/Controller.java:380-412 | synchronising a switch never turns it on, doing it twice equals doing it once, and on an allowed day it changes nothing |
| HackathonController.MaxTeamId | Hackhaton1/src/controller/Controller.java:666-669 | the largest in-memory team id, or 0: no team id exceeds it and it is 0 or some team's id |
| HackathonController.SafeTeamId | Hackhaton1/src/controller/Controller.java:665-679 | the new id is positive, above every in-memory id and above the database's maximum when that could be read, so no team has it |
| HackathonController.Controller.constructor | Hackhaton1/src/controller/Controller.java:138-145 | a new controller has no event, both switches off, no votes and no points |
| HackathonController.Controller.CreaHackathon | Hackhaton1/src/controller/Controller.java:182-198 | the outcome is the event's construction check; on success a fresh empty event with the given title, venue, organiser, dates and team size replaces the old one, on failure the old one stays; switches, votes and points are not reset |
| HackathonController.Controller.MinimumsCheck | Hackhaton1/src/controller/Controller.java:1144-1163 | no error if and only if there are at least 3 judges and at least 3 teams |
| HackathonController.Controller.SyncRegistrazioniConData | Hackhaton1/src/controller/Controller.java:380-386 | fails only without an event; the registration switch is turned off outside the window and otherwise kept; nothing else changes |
| HackathonController.Controller.SyncInvioDocumentiConData | Hackhaton1/src/controller/Controller.java:406-412 | fails only without an event; the upload switch is turned off outside the event days and otherwise kept; nothing else changes |
| HackathonController.Controller.OpenRegistrationsCheck | Hackhaton1/src/controller/Controller.java:337-354 | opening passes if and only if an event exists, it has at least 3 judges and the day is in the registration window |
| HackathonController.Controller.ApriRegistrazioni | Hackhaton1/src/controller/Controller.java:337-354 | the outcome is `OpenRegistrationsCheck`; on success the switch is on; on failure it is the synchronised old value, and without an event it is untouched; the switch only goes from off to on with 3 judges inside the window |
| HackathonController.Controller.ChiudiRegistrazioni | Hackhaton1/src/controller/Controller.java:359-361 | the registration switch is off and nothing else changes |
| HackathonController.Controller.EnableUploadsCheck | Hackhaton1/src/controller/Controller.java:426-440 | enabling passes if and only if an event exists, the day is an event day, and there are at least 3 judges and 3 teams |
| HackathonController.Controller.AbilitaInvioDocumenti | Hackhaton1/src/controller/Controller.java:426-440 | the outcome is `EnableUploadsCheck`; the switch only goes from off to on during the event with 3 judges and 3 teams; on failure it is the synchronised old value, and without an event it is untouched |
| HackathonController.Controller.DisabilitaInvioDocumenti | Hackhaton1/src/controller/Controller.java:447-449 | the upload switch is off and nothing else changes |
| HackathonController.Controller.CanAddJudge | Hackhaton1/src/controller/Controller.java:393-396 | fails without an event; otherwise true exactly when fewer than 3 judges exist |
| HackathonController.Controller.AddJudgeCheck | Hackhaton1/src/controller/Controller.java:472-485 | adding a judge passes if and only if an event exists, fewer than 3 judges exist, the judge is given and new, and persisting succeeds |
| HackathonController.Controller.AggiungiGiudice | Hackhaton1/src/controller/Controller.java:472-485 | the outcome is `AddJudgeCheck`; the judge is appended exactly on success, and a persistence failure leaves the judges as before; never more than 3 judges; the problem statement is unchanged |
| HackathonController.Controller.RemoveJudgeCheck | Hackhaton1/src/controller/Controller.java:514-538 | removal passes if and only if an event exists, id > 0, a judge has that id and persisting succeeds |
| HackathonController.Controller.EliminaGiudicePerId | Hackhaton1/src/controller/Controller.java:514-538 | the outcome is `RemoveJudgeCheck`; on success the judge and every final vote by that judge are gone and nothing else changes, the problem statement included; on failure nothing changes |
| HackathonController.Controller.RegisterUserCheck | Hackhaton1/src/controller/Controller.java:557-570 | registering passes if and only if an event exists, the organiser has opened registrations, the event accepts the user and persisting succeeds |
| HackathonController.Controller.RegistraUtente | Hackhaton1/src/controller/Controller.java:557-570 | the outcome is `RegisterUserCheck`; exactly one registration is appended on success, and a persistence failure leaves the registrations as before; the problem statement is unchanged |
| HackathonController.Controller.AnnullaRegistrazione | Hackhaton1/src/controller/Controller.java:566-569 | the rollback restores exactly the registrations before the failed write and keeps the controller valid; the problem statement is unchanged |
| HackathonController.Controller.RemoveUserCheck | Hackhaton1/src/controller/Controller.java:585-602 | deleting passes if and only if an event exists, id > 0, a registration has that user id and persisting succeeds |
| HackathonController.Controller.EliminaUtentePerId | Hackhaton1/src/controller/Controller.java:585-615 | the outcome is `RemoveUserCheck`; on success the user leaves every team, teams left empty are dropped, the user's registrations are removed, and no remaining team holds the user, while the judges and the problem statement are unchanged; on failure nothing changes |
| HackathonController.Controller.TogliDaiTeam | Hackhaton1/src/controller/Controller.java:604-612 | the snapshot loop: the event keeps exactly the teams not emptied by the removal, and every team of the snapshot lost the user and kept its documents; the problem statement is unchanged |
| HackathonController.Controller.TogliDalloSnapshot | Hackhaton1/src/controller/Controller.java:605-612 | the `for` loop over the snapshot: each snapshot entry, by position, lost the user and kept its documents, the event keeps exactly the entries not emptied, and no remaining team holds the user; the problem statement is unchanged |
| HackathonController.Controller.TogliPasso | Hackhaton1/src/controller/Controller.java:605-612 | one iteration of the snapshot loop keeps the loop invariant for the next team; the problem statement is unchanged |
| HackathonController.Controller.TogliDalTeam | Hackhaton1/src/controller/Controller.java:606-611 | the user leaves the team; the team is dropped from the event exactly when the user was its only member; the problem statement is unchanged |
| HackathonController.Controller.VoteCheck | Hackhaton1/src/controller/Controller.java:846-874 | a vote passes if and only if an event exists, the vote is given, its judge and team are in the event, voting is allowed, its (judge, team) pair is new and persisting succeeds |
| HackathonController.Controller.AssegnaVotoFinale | Hackhaton1/src/controller/Controller.java:846-874 | the outcome is `VoteCheck`; exactly the vote is appended on success, and a persistence failure leaves the votes as before; (judge, team) pairs stay unique |
| HackathonController.Controller.NextTeamIdSafe | Hackhaton1/src/controller/Controller.java:665-679 | the loop computes `SafeTeamId`: one more than the larger of the in-memory maximum and the database maximum, with 0 when the read fails |
| HackathonController.Controller.AddTeamCheck | Hackhaton1/src/controller/Controller.java:637-658 | adding a team passes if and only if an event exists, the organiser has opened registrations, the team is given, fewer than 20 teams exist, its normalised name is new, the registration window is open, it has between 1 and `maxTeamSize` members, every member is registered and in no other team, and persisting succeeds |
| HackathonController.Controller.AggiungiTeam | Hackhaton1/src/controller/Controller.java:637-658 | the outcome is the controller's and the event's guards, then persistence; on success one fresh team with the safe id and the template's name and members is appended; on failure the teams are unchanged; the judges, registrations and problem statement are unchanged |
| HackathonController.Controller.AggiungiCopia | Hackhaton1/src/controller/Controller.java:650-657 | the event's add on the copy, then persistence: the copy is appended exactly on success and removed again when persisting fails; the problem statement is unchanged |
| HackathonController.Controller.AnnullaAggiunta | Hackhaton1/src/controller/Controller.java:655 | removing the copy just appended restores the teams before the add; the problem statement is unchanged |
| HackathonController.Controller.CopyCheckAgrees | Hackhaton1/src/controller/Controller.java:644-650 | the event's checks on the copy (same name and members, new id) give the same outcome as the controller's guards on the template |
| HackathonController.Controller.CopyTeam | Hackhaton1/src/controller/Controller.java:644-648 | the copy is a fresh team with the given id, the template's name and members, and no documents |
| HackathonController.Controller.PublishProblemCheck | Hackhaton1/src/controller/Controller.java:820-825 | publishing passes if and only if an event exists, it has 3 judges and 3 teams, and the event's own check passes |
| HackathonController.Controller.PubblicaProblema | Hackhaton1/src/controller/Controller.java:820-825 | the outcome is `PublishProblemCheck`; the description changes exactly on success; the event's lists are unchanged |
| HackathonController.Controller.UploadEvalCheck | Hackhaton1/src/controller/Controller.java:764-785 | the upload has no error if and only if an event, the team and the document are given, the synchronised upload switch is on, there are 3 judges and 3 teams, the event accepts the document and persisting succeeds |
| HackathonController.Controller.CaricaDocumentoEValuta | Hackhaton1/src/controller/Controller.java:764-808 | fails exactly when a guard fails, with its error (upload switch read after synchronisation); on success the document is appended and exactly one mark, the rounded mean of the judges' marks and in 1..10, is appended to the team's points; on failure the documents and points are as before |
| HackathonController.Controller.CaricaEValuta | Hackhaton1/src/controller/Controller.java:778-800 | after the guards: the event's upload check, then persistence with the document popped on failure, then the rounded mean appended to the team's points |
| HackathonController.Controller.PuntiDaiVoti | Hackhaton1/src/controller/Controller.java:787-798 | the marking loop computes `PuntiDocumento` of the marks, which lies in 1..10 |
| HackathonController.Controller.GetSlotTotaliDocumenti | Hackhaton1/src/controller/Controller.java:883-886 | fails without an event; otherwise 5 days × 3 documents = 15 |
| HackathonController.Controller.GetNumeroDocumentiConsegnati | Hackhaton1/src/controller/Controller.java:894-897 | 0 for a null team and for a team with no recorded points; otherwise the number of points recorded for the team's id |
| HackathonController.Controller.GetSommaPuntiDocumenti | Hackhaton1/src/controller/Controller.java:905-910 | the loop sums the team's points; the sum lies between the number of delivered documents and ten times that number |
| HackathonController.Controller.GetDocumentiMancanti | Hackhaton1/src/controller/Controller.java:918-922 | fails without an event; otherwise the missing count for the team's delivered documents |
| HackathonController.Controller.CalcolaMediaProgressiConZeri | Hackhaton1/src/controller/Controller.java:933-937 | fails without an event; otherwise the points' sum over 15 slots, within 0..10 when at most 15 documents were marked |
| HackathonController.Controller.MediaVotiTeamConZeri | Hackhaton1/src/controller/Controller.java:1110-1122 | the loop computes `MediaVoti`: the team's final votes summed over the number of judges, 0 without judges |
| HackathonController.Controller.ScoreTotaleTeam | Hackhaton1/src/controller/Controller.java:1131-1135 | the score is `ScoreTeam`: 0.7 × the vote mean + 0.3 × the progress mean |
| HackathonController.Controller.RankingCheck | Hackhaton1/src/controller/Controller.java:1051-1060 | the ranking is available if and only if an event exists, voting is allowed and there are 3 judges and 3 teams |
| HackathonController.Controller.GeneraClassifica | Hackhaton1/src/controller/Controller.java:1051-1063 | fails exactly when `RankingCheck` does; otherwise the teams sorted by descending score, a permutation of the event's teams, with teams of equal score in their original order |
| HackathonController.Survivors | Hackhaton1/src/controller/Controller.java:604-612 | the teams kept after a user's deletion are exactly those not emptied by it, all taken from the list |
| HackathonController.RemoveAllKeepsPairs | Hackhaton1/src/controller/Controller.java:536-537 | removing a judge's votes keeps (judge, team) pairs unique |
| HackathonController.RemoveAllSubset | Hackhaton1/src/controller/Controller.java:536-537 | removing votes never adds one |
| Punteggi.SumWithin | Hackhaton1/src/controller/Controller.java:905-910 | a sum of n values in lo..hi lies in n·lo..n·hi |
| Punteggi.SumAppend | Hackhaton1/src/controller/Controller.java:905-910 | the sum of a concatenation is the sum of the parts |
| Punteggi.DocumentiMancanti | Hackhaton1/src/controller/Controller.java:918-922 | `max(0, 15 − delivered)`: never negative, and with at most 15 delivered it plus the delivered count is 15 |
| Punteggi.RoundedMeanIsNearest | Hackhaton1/src/controller/Controller.java:797-798 | `Math.round(sum / n)` is the integer r with r − 1/2 ≤ sum/n < r + 1/2 |
| Punteggi.RoundedMeanWithin | Hackhaton1/src/controller/Controller.java:797-798 | the rounded mean of values in lo..hi lies in lo..hi |
| Punteggi.PuntiDocumentoFacts | Hackhaton1/src/controller/Controller.java:787-798 | the document mark is the rounded mean of the judges' marks, and lies in 1..10 when every mark does |
| Punteggi.MediaProgressiWithin | Hackhaton1/src/controller/Controller.java:933-937 | the progress mean of at most 15 marks in 0..10 lies in 0..10 |
| Punteggi.MediaProgressiAppend | Hackhaton1/src/controller/Controller.java:800 | one more document mark raises the progress mean by that mark over 15 |
| Punteggi.MediaVotiWithin | Hackhaton1/src/controller/Controller.java:1110-1122 | the vote mean of at most one vote per judge, each in 0..10, lies in 0..10 |
| Punteggi.ScoreTotaleWithin | Hackhaton1/src/controller/Controller.java:1131-1135 | the score lies between the two means, so in 0..10 when both are |
| Punteggi.ScoreTotaleMonotone | Hackhaton1/src/controller/Controller.java:1131-1135 | raising either mean never lowers the score |
| Punteggi.VotiDelTeam | Hackhaton1/src/controller/Controller.java:1113-1117 | the team's final votes, no more than all votes and each in 0..10 |
| Punteggi.InsertPermutes | Hackhaton1/src/controller/Controller.java:1062-1063 | inserting into the ranking adds exactly that team |
| Punteggi.InsertSorted | Hackhaton1/src/controller/Controller.java:1062-1063 | inserting into a list sorted by descending score keeps it sorted |
| Punteggi.InsertWithKey | Hackhaton1/src/controller/Controller.java:1062-1063 | insertion puts a team after every team with its score (stability) |
| Punteggi.ClassificaIsStableSort | Hackhaton1/src/controller/Controller.java:1062-1063 | the ranking is sorted by descending score, a permutation of its input, and keeps the input order among equal scores, as `List.sort` does |

## Left out

- The Swing user interface (`gui/SwingUi.java`) is not modelled. Its phase label is used only as the reference for `FaseDi`.
- Persistence (DAOs, JDBC, the quoted and lower-case schema fallbacks, `ensureHackathonRow`, and the best-effort organiser save in `creaHackathon`) is not modelled. Each DAO write is a `persistOk` input. The database's maximum team id is an `Option<int>` input, where `None` means the read failed.
- `java.util.Random` is not modelled. The judges' marks for a document are a `votiGiudici` input, one mark in 1..10 per judge.
- `simulaVotiFinaliEReport`, `simulaVotiMancanti` and the report helpers are not modelled. They draw random votes and build text; their guards are those of the ranking.
- The report and ranking text (`StringBuilder`, `String.format`) is not modelled. `GeneraClassifica` returns the sorted team list.
- Wall-clock reads (`LocalTime.now()` and the one-argument `Documento` constructor) are not modelled. The time of day is an input, and dates are integer day numbers.
- A null `LocalDate` is not modelled, because every date is a value. The "Data nulla" branches therefore cannot occur.
- Doubles are modelled as exact `real`s, so rounding errors of floating point are not modelled.
- Java `int` overflow is not modelled in counts, sums and ids; they are unbounded integers. The 32-bit wrap-around is written out only in `Objects.hash`.
- `toUpperCase(Locale.ROOT)` is modelled on Latin-1 letters only. Characters above U+00FF, and letters whose upper case is longer (such as 'ß'), keep their value.
- `CapitaleEuropa` is not modelled; a venue is a string.
- `Giudice` is not modelled as its own type; a judge is a `Utente`.
- The stale top-level `src/` prototype is not modelled.
- Getters, `toString` and `getDetails` are not modelled; they only read fields or build text.
- HackathonController.Controller.CalcolaMediaProgressiConZeri: the 0..10 bound is proved only for a team with at most 15 recorded marks. Marks are keyed by team id while the daily cap counts the documents of the `Team` object passed in, so two objects with one id can exceed 15.
- HackathonController.Controller.AssegnaVotoFinale: the rollback removes the first vote with the new vote's (judge, team) pair rather than the vote object. Because pairs are unique, this is the same element.
- Utenti.NewUtente: it uses the corrected email check (see Findings), not the check as written.

## Findings

| source | as written | input that shows it | evidently intended | confidence | as-written member | corrected member |
|---|---|---|---|---|---|---|
| Hackhaton1/src/model/Utente.java:49-53 | the email is rejected only when blank, then stored trimmed; `isBlank` ignores only Unicode whitespace, while `trim` removes every character up to U+0020 | email "\u0001": not blank, so accepted, then trimmed to "" and stored empty | the stored email is never empty, as the class documentation states | high, not executed | Utenti.EmailOfControlCharacterStoredEmpty | Utenti.ValidateEmail |
