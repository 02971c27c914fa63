/**
 * The extraction endpoints: the same text-only partial update as the
 * application endpoints, and the validation in front of a batch extraction
 * over a time window. Parsing ISO 8601 is a predicate supplied by the
 * caller; the extraction service is represented by the call it receives.
 */
module ExtractViews {
  import opened Values
  import opened ApplicationViews

  /** This view's partial update applies the same whitelist rule. */
  lemma PatchRejectsOtherFields(body: map<string, Value>, k: string)
    requires k in body && k != "text"
    ensures PartialUpdate(body) == PatchRejected("Invalid fields for partial update.")
  {
  }

  /** A body holding only "text" is forwarded unchanged. */
  lemma PatchForwardsText(v: Value)
    ensures PartialUpdate(map["text" := v]) == PatchForwarded(map["text" := v])
  {
    assert map["text" := v].Keys == {"text"};
  }

  const MissingError: string := "Both 'start' and 'end' are required"
  const FormatError: string := "Invalid datetime format, must be ISO 8601"
  const CompletedMessage: string := "Extraction completed"

  /**
   * The reply of `process_extract`. `Uncaught` is a truthy non-string
   * parameter: parsing it raises a TypeError, which this view does not catch.
   */
  datatype ExtractReply =
    | BadRequest(error: string)
    | Uncaught
    | Completed(start: string, end: string, message: string)

  /**
   * Both parameters must be truthy; then `start` is parsed before `end`, and
   * only when both parse is the service called, with the strings as sent.
   */
  function ProcessExtract(start: Value, end: Value, isIso: string -> bool): (r: ExtractReply)
    ensures r == BadRequest(MissingError) <==> !Truthy(start) || !Truthy(end)
    ensures r == BadRequest(FormatError) ==> Truthy(start) && Truthy(end) && ((start.Str? && !isIso(start.s)) || (end.Str? && !isIso(end.s)))
    ensures r.Completed? <==> Truthy(start) && Truthy(end) && start.Str? && end.Str? && isIso(start.s) && isIso(end.s)
    ensures r.Completed? ==> r == Completed(start.s, end.s, CompletedMessage)
    ensures r.BadRequest? ==> r.error == MissingError || r.error == FormatError
    ensures r == Uncaught <==> Truthy(start) && Truthy(end) && (!start.Str? || (isIso(start.s) && !end.Str?))
  {
    if !(Truthy(start) && Truthy(end)) then BadRequest(MissingError)
    else if !start.Str? then Uncaught
    else if !isIso(start.s) then BadRequest(FormatError)
    else if !end.Str? then Uncaught
    else if !isIso(end.s) then BadRequest(FormatError)
    else Completed(start.s, end.s, CompletedMessage)
  }

  /** The presence check comes first: a missing end wins over a malformed start. */
  lemma MissingBeforeFormat(start: string, isIso: string -> bool)
    requires start != "" && !isIso(start)
    ensures ProcessExtract(Str(start), Null, isIso) == BadRequest(MissingError)
    ensures ProcessExtract(Str(start), Str(""), isIso) == BadRequest(MissingError)
  {
  }

  /** Two strings that parse start the extraction exactly once, with those strings. */
  lemma ValidWindowCompletes(start: string, end: string, isIso: string -> bool)
    requires start != "" && end != "" && isIso(start) && isIso(end)
    ensures ProcessExtract(Str(start), Str(end), isIso) == Completed(start, end, CompletedMessage)
  {
  }

  /** A string that does not parse, with the other one present, is a format error. */
  lemma MalformedIsFormatError(start: string, end: string, isIso: string -> bool)
    requires start != "" && end != ""
    requires !isIso(start) || !isIso(end)
    ensures ProcessExtract(Str(start), Str(end), isIso) == BadRequest(FormatError)
  {
  }
}
