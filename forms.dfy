/**
 * What the panels' dialogs and buttons have in common: the required-field
 * check on trimmed text, and how an action ends.
 */
module Forms {
  import opened Wrappers
  import opened JavaText
  import opened Domain
  import opened Persistence

  const ALL_FIELDS_REQUIRED := "All fields are required"
  const NAMES_REQUIRED := "First name and last name are required"

  /**
   * How an action ends. `Rejected` is an exception thrown before anything
   * changed; the dialog stays open and shows its message. `NotSaved` is the
   * persistence manager's exception, thrown after the list and the table were
   * already changed.
   */
  datatype Response =
    | Saved
    | NoSelection
    | Declined
    | Rejected(failure: Failure)
    | NotSaved(failure: Failure)

  /** The response once the list has changed and `saveX` was called. */
  function AfterSaving(outcome: Outcome<Failure>): (r: Response)
    ensures r.Saved? <==> outcome.Pass?
    ensures outcome.Fail? ==> r == NotSaved(outcome.error)
  {
    match outcome
    case Pass => Saved
    case Fail(e) => NotSaved(e)
  }

  /**
   * Trims every field and refuses the form with an `IllegalArgumentException`
   * carrying `message` when any trimmed field is empty.
   */
  function RequireAll(texts: seq<string>, message: string): (r: Result<seq<string>, Failure>)
    ensures r.Ok? <==> forall i :: 0 <= i < |texts| ==> !IsBlank(texts[i])
    ensures r.Ok? ==> |r.value| == |texts|
    ensures r.Ok? ==> forall i :: 0 <= i < |texts| ==> r.value[i] == Trim(texts[i]) && r.value[i] != []
    ensures r.Err? ==> r.error == IllegalArgument(message)
  {
    var trimmed := seq(|texts|, i requires 0 <= i < |texts| => Trim(texts[i]));
    assert forall i :: 0 <= i < |texts| ==> (trimmed[i] == [] <==> IsBlank(texts[i])) by {
      forall i | 0 <= i < |texts| {
        TrimEmptyIffBlank(texts[i]);
      }
    }
    if forall i :: 0 <= i < |texts| ==> trimmed[i] != [] then Ok(trimmed)
    else Err(IllegalArgument(message))
  }
}
