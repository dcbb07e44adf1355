/**
  `Documento`: a progress document uploaded by a team, stamped with the simulated
  date of the upload. Dates are day numbers; the time of day read from the clock
  is passed in.
*/
module Documenti {
  import opened Wrappers
  import opened Errors
  import opened JavaStrings

  const NANOS_PER_DAY: int := 86_400_000_000_000

  /** A `LocalTime`, as nanoseconds since midnight. */
  type TimeOfDay = n: int | 0 <= n < NANOS_PER_DAY

  /** A `LocalDateTime`: a day number and a time of that day. */
  datatype Timestamp = Timestamp(date: int, time: TimeOfDay)

  datatype Documento = Documento(contenuto: string, timestamp: Timestamp)

  /** The constructor `Documento(contenuto, dataSimulata)`, the clock's time of day
      being `now`. Content is checked with `isBlank` and stored as given. */
  function NewDocumento(contenuto: Option<string>, dataSimulata: Option<int>, now: TimeOfDay)
    : (r: Result<Documento, Error>)
    ensures (contenuto.None? || IsBlank(contenuto.value)) ==> r == Failure(IllegalArgument(Invalid(Content)))
    ensures contenuto.Some? && !IsBlank(contenuto.value) && dataSimulata.None?
            ==> r == Failure(IllegalArgument(Invalid(SimulatedDate)))
    ensures r.Success? <==> contenuto.Some? && !IsBlank(contenuto.value) && dataSimulata.Some?
    ensures r.Success? ==>
      (r.value.contenuto == contenuto.value && DataDi(r.value) == dataSimulata.value
       && r.value.timestamp.time == now)
  {
    if contenuto.None? || IsBlank(contenuto.value) then Failure(IllegalArgument(Invalid(Content)))
    else if dataSimulata.None? then Failure(IllegalArgument(Invalid(SimulatedDate)))
    else Success(Documento(contenuto.value, Timestamp(dataSimulata.value, now)))
  }

  /** `getTimestamp().toLocalDate()`: the day a document counts against. */
  function DataDi(d: Documento): int {
    d.timestamp.date
  }

  /** The content is never normalised: a document whose text has surrounding
      spaces keeps them, and two uploads on the same simulated day count for the
      same day whatever the clock says. */
  lemma NewDocumentoKeepsContentAndDay(contenuto: string, day: int, t1: TimeOfDay, t2: TimeOfDay)
    requires !IsBlank(contenuto)
    ensures NewDocumento(Some(" " + contenuto + " "), Some(day), t1).Success?
    ensures NewDocumento(Some(" " + contenuto + " "), Some(day), t1).value.contenuto == " " + contenuto + " "
    ensures DataDi(NewDocumento(Some(contenuto), Some(day), t1).value)
         == DataDi(NewDocumento(Some(contenuto), Some(day), t2).value)
  {
    var padded := " " + contenuto + " ";
    var i :| 0 <= i < |contenuto| && !IsWhitespace(contenuto[i]);
    assert padded[i + 1] == contenuto[i];
  }
}
