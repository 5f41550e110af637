/** The field checks shared by the add and edit handlers. */
module Validation {
  import opened Wrappers
  import opened Text
  import opened Dates
  import opened Schema

  /**
   * The `if due_date:` block: an absent or empty due date is accepted; otherwise it
   * must parse as a date (else BadDateFormat) that is not before `today` (else PastDueDate).
   * `None` means the date passed.
   */
  function ValidateDueDate(raw: Option<string>, today: Date): (r: Option<FormError>)
    ensures r == None || r == Some(BadDateFormat) || r == Some(PastDueDate)
    ensures r == Some(BadDateFormat) <==> Filled(raw) && ParseDate(raw.value).None?
    ensures r == Some(PastDueDate) <==>
      Filled(raw) && ParseDate(raw.value).Some? && Before(ParseDate(raw.value).value, today)
    ensures r == None && Filled(raw) ==>
      ParseDate(raw.value).Some? && ValidDate(ParseDate(raw.value).value) && !Before(ParseDate(raw.value).value, today)
  {
    if !Filled(raw) then
      None
    else
      match ParseDate(raw.value)
      case None => Some(BadDateFormat)
      case Some(d) => if Before(d, today) then Some(PastDueDate) else None
  }

  /** A real date written `YYYY-MM-DD` is accepted exactly when it is not before today. */
  lemma ValidateIsoDueDate(d: Date, today: Date)
    requires ValidDate(d)
    ensures ValidateDueDate(Some(FormatIso(d)), today) == (if Before(d, today) then Some(PastDueDate) else None)
  {
    ParseFormatIso(d);
  }

  /** The due date is optional: no value and the empty string both pass. */
  lemma EmptyDueDateAccepted(today: Date)
    ensures ValidateDueDate(None, today) == None
    ensures ValidateDueDate(Some(""), today) == None
  {
  }

  /**
   * Enum coercion on edit: a recognised status label is taken, anything else
   * (absent, misspelt, another language) keeps `fallback`.
   */
  function NormalizeStatus(raw: Option<string>, fallback: Status): (r: Status)
    ensures ParseStatus(raw).None? ==> r == fallback
    ensures ParseStatus(raw).Some? ==> raw == Some(Label(r))
  {
    match ParseStatus(raw)
    case Some(s) => s
    case None => fallback
  }
}
