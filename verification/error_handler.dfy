/** The Express error middleware: maps a thrown error to a response. */
module ErrorHandler {
  import opened Wrappers
  import opened Http

  const DuplicateEntry := "ER_DUP_ENTRY"
  const GenericMessage := "Internal server error"

  /** The body sent for a duplicate-entry error. */
  const DuplicateBody := FieldErrors("Validation failed", map["name" := "Country already exists"])

  /** `err.status` read as a truthy number. */
  predicate HasStatus(e: Error) {
    e.status.Some? && e.status.value != 0
  }

  /** `err.message` read as a truthy string. */
  predicate HasMessage(e: Error) {
    e.message.Some? && e.message.value != ""
  }

  function HandleError(e: Error): (r: Response)
    // the duplicate-entry code wins over whatever status the error carries
    ensures e.code == Some(DuplicateEntry) ==> r == Response(400, DuplicateBody)
    ensures e.code != Some(DuplicateEntry) ==> r.body.ErrorOnly?
    ensures e.code != Some(DuplicateEntry) && HasStatus(e) ==> r.status == e.status.value
    ensures e.code != Some(DuplicateEntry) && !HasStatus(e) ==> r.status == 500
    ensures e.code != Some(DuplicateEntry) && HasMessage(e) ==> r.body.error == e.message.value
    ensures e.code != Some(DuplicateEntry) && !HasMessage(e) ==> r.body.error == GenericMessage
    // a response always carries a truthy status and a non-empty error
    ensures r.status != 0
  {
    if e.code == Some(DuplicateEntry) then
      Response(400, DuplicateBody)
    else
      Response(if HasStatus(e) then e.status.value else 500,
               ErrorOnly(if HasMessage(e) then e.message.value else GenericMessage))
  }

  /** The body never leaks anything but the error's own message or the
      generic text. */
  lemma NoOtherMessage(e: Error)
    requires e.code != Some(DuplicateEntry)
    ensures HandleError(e).body.error == GenericMessage || Some(HandleError(e).body.error) == e.message
  {
  }
}
