/**
  `Organizzatore`: the organiser of the event, identified by its id and holding a
  clear-text password that `checkPassword` compares.
*/
module Organizzatori {
  import opened Wrappers
  import opened Errors
  import opened JavaStrings
  import opened JavaInts

  datatype Organizzatore = Organizzatore(id: int, nome: string, cognome: string, password: string)

  /** A value as `validateMin3` returns it: trimmed, at least 3 UTF-16 code units. */
  predicate Min3(s: string) {
    IsTrimmed(s) && Utf16Length(s) >= 3
  }

  /** What the constructor guarantees of every `Organizzatore` it builds. */
  predicate ValidOrganizzatore(o: Organizzatore) {
    o.id > 0 && Min3(o.nome) && Min3(o.cognome) && Min3(o.password)
  }

  /** `validateMin3`: null, blank and short (after trimming) values are all illegal
      arguments, the length counted in UTF-16 code units as `String.length()` does;
      unlike the participant's name check, null does not reach `trim`. */
  function ValidateMin3(s: Option<string>, field: Field): (r: Result<string, Error>)
    ensures s.None? ==> r == Failure(IllegalArgument(Invalid(field)))
    ensures s.Some? && Trim(s.value) == [] ==> r == Failure(IllegalArgument(Invalid(field)))
    ensures s.Some? && Trim(s.value) != [] && Utf16Length(Trim(s.value)) < 3
            ==> r == Failure(IllegalArgument(TooShort(field)))
    ensures r.Success? <==> s.Some? && Utf16Length(Trim(s.value)) >= 3
    ensures r.Success? ==> Min3(r.value) && r.value == Trim(s.value)
  {
    match s
    case None => Failure(IllegalArgument(Invalid(field)))
    case Some(raw) =>
      var t := Trim(raw);
      if t == [] then Failure(IllegalArgument(Invalid(field)))
      else if Utf16Length(t) < 3 then Failure(IllegalArgument(TooShort(field)))
      else TrimIdempotent(raw); Success(t)
  }

  /** `length()` counts UTF-16 code units: a password of two characters outside the
      Basic Multilingual Plane has length 4 and is accepted. */
  lemma SupplementaryValueAccepted()
    ensures ValidateMin3(Some("\U{1D504}\U{1D505}"), Password) == Success("\U{1D504}\U{1D505}")
  {
    var s := "\U{1D504}\U{1D505}";
    assert s[1..][1..] == [];
    TrimOfTrimmed(s);
  }

  /** The constructor `Organizzatore(id, nome, cognome, password)`; guards in source
      order: id, first name, surname, password. */
  function NewOrganizzatore(id: int, nome: Option<string>, cognome: Option<string>, password: Option<string>)
    : (r: Result<Organizzatore, Error>)
    ensures id <= 0 ==> r == Failure(IllegalArgument(Invalid(OrganizerId)))
    ensures id > 0 && ValidateMin3(nome, Nome).Failure? ==> r == Failure(ValidateMin3(nome, Nome).error)
    ensures id > 0 && ValidateMin3(nome, Nome).Success? && ValidateMin3(cognome, Cognome).Failure?
            ==> r == Failure(ValidateMin3(cognome, Cognome).error)
    ensures id > 0 && ValidateMin3(nome, Nome).Success? && ValidateMin3(cognome, Cognome).Success?
            && ValidateMin3(password, Password).Failure?
            ==> r == Failure(ValidateMin3(password, Password).error)
    ensures r.Success? <==>
      (id > 0 && nome.Some? && cognome.Some? && password.Some?
       && Utf16Length(Trim(nome.value)) >= 3 && Utf16Length(Trim(cognome.value)) >= 3
       && Utf16Length(Trim(password.value)) >= 3)
    ensures r.Success? ==>
      (ValidOrganizzatore(r.value) && r.value.id == id && r.value.nome == Trim(nome.value)
       && r.value.cognome == Trim(cognome.value) && r.value.password == Trim(password.value))
  {
    if id <= 0 then Failure(IllegalArgument(Invalid(OrganizerId)))
    else
      var n := ValidateMin3(nome, Nome);
      if n.Failure? then Failure(n.error)
      else
        var c := ValidateMin3(cognome, Cognome);
        if c.Failure? then Failure(c.error)
        else
          var p := ValidateMin3(password, Password);
          if p.Failure? then Failure(p.error)
          else Success(Organizzatore(id, n.value, c.value, p.value))
  }

  /** `checkPassword`: a null attempt fails; otherwise exact, untrimmed comparison. */
  predicate CheckPassword(o: Organizzatore, attempt: Option<string>) {
    attempt.Some? && attempt.value == o.password
  }

  /** The password the organiser typed at creation is checked against its trimmed
      form: the same text with a surrounding space is accepted at creation but
      refused at login, while the trimmed text is accepted. */
  lemma CheckPasswordAfterCreation(id: int, nome: string, cognome: string, password: string)
    requires NewOrganizzatore(id, Some(nome), Some(cognome), Some(password)).Success?
    ensures CheckPassword(NewOrganizzatore(id, Some(nome), Some(cognome), Some(password)).value, Some(Trim(password)))
    ensures CheckPassword(NewOrganizzatore(id, Some(nome), Some(cognome), Some(password)).value, Some(password))
            <==> Trim(password) == password
    ensures var padded := " " + password;
            NewOrganizzatore(id, Some(nome), Some(cognome), Some(padded)).Success?
            && !CheckPassword(NewOrganizzatore(id, Some(nome), Some(cognome), Some(padded)).value, Some(padded))
  {
    var padded := " " + password;
    TrimLeadingSpace(password);
    assert Trim(padded) != padded by {
      assert |Trim(padded)| <= |password| < |padded|;
    }
  }

  /** `getNomeCompleto`: first name, one space, surname. */
  function NomeCompleto(o: Organizzatore): string {
    o.nome + " " + o.cognome
  }

  /** The full name of a constructed organiser gives back both names. */
  lemma NomeCompletoOfValid(o: Organizzatore)
    requires ValidOrganizzatore(o)
    ensures Utf16Length(NomeCompleto(o)) == Utf16Length(o.nome) + 1 + Utf16Length(o.cognome) >= 7
    ensures Trim(NomeCompleto(o)) == NomeCompleto(o)
    ensures NomeCompleto(o)[..|o.nome|] == o.nome && NomeCompleto(o)[|o.nome| + 1..] == o.cognome
  {
    var f := NomeCompleto(o);
    assert f[0] == o.nome[0] && f[|f| - 1] == o.cognome[|o.cognome| - 1];
    TrimOfTrimmed(f);
    SpaceJoinParts(o.nome, o.cognome);
    Utf16LengthAppend(o.nome, " ");
    Utf16LengthAppend(o.nome + " ", o.cognome);
  }

  /** `equals`: same id. */
  predicate Equals(a: Organizzatore, b: Organizzatore) {
    a.id == b.id
  }

  /** `hashCode`: `Objects.hash(id)`. */
  function HashCode(o: Organizzatore): int {
    ObjectsHash(o.id)
  }

  /** `hashCode` is consistent with `equals`, and equality ignores the password. */
  lemma EqualsHashConsistent(a: Organizzatore, b: Organizzatore)
    ensures Equals(a, b) ==> HashCode(a) == HashCode(b)
    ensures Equals(a, a.(password := b.password))
  {
  }
}
