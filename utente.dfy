/**
  `Utente`: a participant of the event, identified by its id. A judge (`Giudice`)
  adds nothing to it and is modelled as a `Utente` held in the judges list.
*/
module Utenti {
  import opened Wrappers
  import opened Errors
  import opened JavaStrings
  import opened JavaInts

  datatype Utente = Utente(id: int, nome: string, cognome: string, email: string)

  /** A name as the constructor stores it: trimmed, at least 3 UTF-16 code units. */
  predicate ValidatedName(s: string) {
    IsTrimmed(s) && Utf16Length(s) >= 3
  }

  /** An email as the constructor stores it: trimmed and not empty. */
  predicate ValidatedEmail(s: string) {
    IsTrimmed(s) && s != []
  }

  /** What the constructor guarantees of every `Utente` it builds. */
  predicate ValidUtente(u: Utente) {
    u.id > 0 && ValidatedName(u.nome) && ValidatedName(u.cognome) && ValidatedEmail(u.email)
  }

  /** The key `equals` compares: two users are the same user iff their ids agree. */
  function UtenteKey(u: Utente): int {
    u.id
  }

  /** `validateNomeCognome`: `s.trim()` on a null name throws a NullPointerException;
      an empty or too short trimmed name is an illegal argument, its length counted
      in UTF-16 code units as `String.length()` does. */
  function ValidateNomeCognome(s: Option<string>, field: Field): (r: Result<string, Error>)
    ensures s.None? ==> r == Failure(NullPointer)
    ensures s.Some? && Trim(s.value) == [] ==> r == Failure(IllegalArgument(Invalid(field)))
    ensures s.Some? && Trim(s.value) != [] && Utf16Length(Trim(s.value)) < 3
            ==> r == Failure(IllegalArgument(TooShort(field)))
    ensures r.Success? <==> s.Some? && Utf16Length(Trim(s.value)) >= 3
    ensures r.Success? ==> ValidatedName(r.value) && r.value == Trim(s.value)
  {
    match s
    case None => Failure(NullPointer)
    case Some(raw) =>
      var t := Trim(raw);
      if t == [] then Failure(IllegalArgument(Invalid(field)))
      else if Utf16Length(t) < 3 then Failure(IllegalArgument(TooShort(field)))
      else TrimIdempotent(raw); Success(t)
  }

  /** Validation is a normalisation: a stored name validates to itself, and validating
      twice is validating once. */
  lemma ValidateNomeCognomeIdempotent(s: Option<string>, field: Field)
    requires ValidateNomeCognome(s, field).Success?
    ensures ValidateNomeCognome(Some(ValidateNomeCognome(s, field).value), field)
         == ValidateNomeCognome(s, field)
  {
    TrimIdempotent(s.value);
  }

  /** The email check as the constructor writes it: the guard is `isBlank` (Unicode
      white space) but the stored value is `trim()` (every char up to U+0020). */
  function ValidateEmailAsWritten(e: Option<string>): (r: Result<string, Error>)
    ensures r.Success? <==> e.Some? && !IsBlank(e.value)
    ensures r.Failure? ==> r.error == IllegalArgument(Invalid(Email))
    ensures r.Success? ==> r.value == Trim(e.value) && Trim(r.value) == r.value
  {
    if e.None? || IsBlank(e.value) then Failure(IllegalArgument(Invalid(Email)))
    else TrimIdempotent(e.value); Success(Trim(e.value))
  }

  /** A control character passes the `isBlank` guard and is then trimmed away, so the
      constructor stores an empty email although the field is documented non-empty. */
  lemma EmailOfControlCharacterStoredEmpty()
    ensures ValidateEmailAsWritten(Some("\U{0001}")) == Success("")
  {
    var e := "\U{0001}";
    assert !IsWhitespace(e[0]);
    assert TrimStart("\U{0001}") == [];
  }

  /** The email check as evidently intended: also reject what trims to nothing. */
  function ValidateEmail(e: Option<string>): (r: Result<string, Error>)
    ensures r.Success? <==> e.Some? && !IsBlank(e.value) && Trim(e.value) != []
    ensures r.Failure? ==> r.error == IllegalArgument(Invalid(Email))
    ensures r.Success? ==> ValidatedEmail(r.value) && r.value == Trim(e.value)
  {
    var w := ValidateEmailAsWritten(e);
    if w.Success? && w.value != [] then w else Failure(IllegalArgument(Invalid(Email)))
  }

  /** The correction changes nothing except on the inputs where the code as written
      stores an empty email. */
  lemma ValidateEmailRefinesAsWritten(e: Option<string>)
    ensures ValidateEmail(e) != ValidateEmailAsWritten(e)
        <==> ValidateEmailAsWritten(e) == Success([])
  {
  }

  /** The constructor `Utente(id, nome, cognome, email)`, with its guards in source
      order: id, first name, surname, email. */
  function NewUtente(id: int, nome: Option<string>, cognome: Option<string>, email: Option<string>)
    : (r: Result<Utente, Error>)
    ensures id <= 0 ==> r == Failure(IllegalArgument(Invalid(UserId)))
    ensures id > 0 && ValidateNomeCognome(nome, Nome).Failure? ==> r == Failure(ValidateNomeCognome(nome, Nome).error)
    ensures id > 0 && ValidateNomeCognome(nome, Nome).Success? && ValidateNomeCognome(cognome, Cognome).Failure?
            ==> r == Failure(ValidateNomeCognome(cognome, Cognome).error)
    ensures id > 0 && ValidateNomeCognome(nome, Nome).Success? && ValidateNomeCognome(cognome, Cognome).Success?
            && ValidateEmail(email).Failure?
            ==> r == Failure(ValidateEmail(email).error)
    ensures r.Success? <==>
      (id > 0 && nome.Some? && cognome.Some? && email.Some?
       && Utf16Length(Trim(nome.value)) >= 3 && Utf16Length(Trim(cognome.value)) >= 3
       && !IsBlank(email.value) && Trim(email.value) != [])
    ensures r.Success? ==>
      (ValidUtente(r.value) && r.value.id == id
       && r.value.nome == Trim(nome.value) && r.value.cognome == Trim(cognome.value)
       && r.value.email == Trim(email.value))
  {
    if id <= 0 then Failure(IllegalArgument(Invalid(UserId)))
    else
      var n := ValidateNomeCognome(nome, Nome);
      if n.Failure? then Failure(n.error)
      else
        var c := ValidateNomeCognome(cognome, Cognome);
        if c.Failure? then Failure(c.error)
        else
          var m := ValidateEmail(email);
          if m.Failure? then Failure(m.error)
          else Success(Utente(id, n.value, c.value, m.value))
  }

  /** `getNomeCompleto`: first name, one space, surname. */
  function NomeCompleto(u: Utente): string {
    u.nome + " " + u.cognome
  }

  /** `length()` counts UTF-16 code units: two characters outside the Basic
      Multilingual Plane make a trimmed name of length 4, which is long enough. */
  lemma SupplementaryNameAccepted()
    ensures Utf16Length("\U{1D504}\U{1D505}") == 4
    ensures ValidateNomeCognome(Some("\U{1D504}\U{1D505}"), Nome) == Success("\U{1D504}\U{1D505}")
  {
    var s := "\U{1D504}\U{1D505}";
    assert s[1..][1..] == [];
    TrimOfTrimmed(s);
  }

  /** The full name of a constructed user is itself trimmed, at least 7 UTF-16
      code units long, and gives back both names around the separating space. */
  lemma NomeCompletoOfValid(u: Utente)
    requires ValidUtente(u)
    ensures Utf16Length(NomeCompleto(u)) == Utf16Length(u.nome) + 1 + Utf16Length(u.cognome) >= 7
    ensures Trim(NomeCompleto(u)) == NomeCompleto(u)
    ensures NomeCompleto(u)[..|u.nome|] == u.nome && NomeCompleto(u)[|u.nome|] == ' '
    ensures NomeCompleto(u)[|u.nome| + 1..] == u.cognome
  {
    var f := NomeCompleto(u);
    assert f[0] == u.nome[0] && f[|f| - 1] == u.cognome[|u.cognome| - 1];
    TrimOfTrimmed(f);
    SpaceJoinParts(u.nome, u.cognome);
    Utf16LengthAppend(u.nome, " ");
    Utf16LengthAppend(u.nome + " ", u.cognome);
  }

  /** `equals`: same id. */
  predicate Equals(a: Utente, b: Utente) {
    UtenteKey(a) == UtenteKey(b)
  }

  /** `hashCode`: `Objects.hash(id)`. */
  function HashCode(u: Utente): int {
    ObjectsHash(u.id)
  }

  /** `hashCode` is consistent with `equals`, which is an equivalence. */
  lemma EqualsHashConsistent(a: Utente, b: Utente, c: Utente)
    ensures Equals(a, a)
    ensures Equals(a, b) ==> Equals(b, a) && HashCode(a) == HashCode(b)
    ensures Equals(a, b) && Equals(b, c) ==> Equals(a, c)
  {
  }
}
