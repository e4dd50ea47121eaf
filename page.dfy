/** The page state around the predictor: the single stored reference
    timestamp, the commit action that replaces it from the date-time input
    field, and the countdown text that each refresh shows. */
module Page {
  import opened Wrappers
  import opened Formatting
  import opened Tide

  /** The countdown line of a refresh: "N/A" without a reference, otherwise
      formatTime of the time until the next event. */
  function CountdownText(p: Prediction): (r: string)
    ensures r == "N/A" <==> p.NoReference?
    ensures p.Tide? && p.timeUntilNext >= 0 ==> IsClockText(r, p.timeUntilNext / 1000)
  {
    match p
    case NoReference => "N/A"
    case Tide(_, timeUntilNext, _, _) => FormatTime(timeUntilNext)
  }

  /** With a reference in the past the countdown never exceeds half a cycle,
      so it is always shown as the 8 characters HH:MM:SS and reads back as
      the whole seconds left. */
  lemma CountdownFitsClock(r: int, now: int)
    requires HasReference(Some(r)) && now >= r
    ensures var p := Predict(Some(r), now);
      |CountdownText(p)| == 8 && IsClockText(CountdownText(p), p.timeUntilNext / 1000)
  {
    var p := Predict(Some(r), now);
    StatusByPhase(r, now);
    FormatTimeWidth(p.timeUntilNext);
  }

  /** How a commit of the input field ended, and which message box it raises. */
  datatype CommitOutcome = Updated | MissingInput | InvalidDate

  function MessageText(o: CommitOutcome): (m: Option<string>)
    ensures m.None? <==> o == Updated
  {
    match o
    case Updated => None
    case MissingInput => Some("Please select a date and time for the last high tide.")
    case InvalidDate => Some("Please enter a valid date and time.")
  }

  /** The known Falmouth high tide committed when nothing is stored. */
  const DefaultReferenceInput: string := "2025-08-11T13:15"

  class TideClock {
    /** lastHighTideTimestamp: epoch milliseconds, or None for null. */
    var reference: Option<int>

    /** The page starts from whatever timestamp was stored, if any. */
    constructor (stored: Option<int>)
      ensures reference == stored
    {
      reference := stored;
    }

    /** One refresh: the predictor applied to the current reference. */
    method Refresh(now: int) returns (p: Prediction)
      ensures p == Predict(reference, now)
    {
      p := UpdateTideClock(reference, now);
    }

    /** The set-button handler. An empty field and a date the parser rejects
        (None stands for NaN) both leave the reference as it was and raise
        their message; otherwise the parsed instant becomes the reference
        and the clock is refreshed at once. */
    method SetReference(input: string, parse: string -> Option<int>, now: int)
      returns (outcome: CommitOutcome, shown: Option<Prediction>)
      modifies this
      ensures input == "" ==> outcome == MissingInput && reference == old(reference)
      ensures input != "" && parse(input).None? ==> outcome == InvalidDate && reference == old(reference)
      ensures input != "" && parse(input).Some? ==> outcome == Updated && reference == parse(input)
      ensures shown == if outcome == Updated then Some(Predict(reference, now)) else None
    {
      if input != "" {
        var selected := parse(input);
        if selected.Some? {
          reference := selected;
          var p := Refresh(now);
          outcome, shown := Updated, Some(p);
        } else {
          outcome, shown := InvalidDate, None;
        }
      } else {
        outcome, shown := MissingInput, None;
      }
    }
  
    /** Page load after construction: a stored (truthy) reference is kept
        as it is; otherwise the default high tide is put in the input field
        and committed as a click on the set button would. */
    method StartUp(parse: string -> Option<int>, now: int)
      returns (outcome: Option<CommitOutcome>, shown: Option<Prediction>)
      modifies this
      ensures HasReference(old(reference)) ==> outcome.None? && shown.None? && reference == old(reference)
      ensures !HasReference(old(reference)) && parse(DefaultReferenceInput).None? ==>
        outcome == Some(InvalidDate) && shown.None? && reference == old(reference)
      ensures !HasReference(old(reference)) && parse(DefaultReferenceInput).Some? ==>
        outcome == Some(Updated) && reference == parse(DefaultReferenceInput) &&
        shown == Some(Predict(reference, now))
    {
      if HasReference(reference) {
        outcome, shown := None, None;
      } else {
        var o;
        o, shown := SetReference(DefaultReferenceInput, parse, now);
        outcome := Some(o);
      }
    }
  }
}
