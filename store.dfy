/**
 * The application store: the privacy policy the user chose (which text and
 * image categories to redact, how far to fuzz a location) and the UI's loading
 * flag and error message. Every setter replaces exactly one field.
 */
module Store {
  import opened Wrappers
  import opened Strings

  /** Text categories enabled when nothing has been saved yet (GPS is not among them). */
  const DefaultTextRules: seq<string> := ["EMAIL", "PHONE", "ADDRESS", "NAME", "ID", "CARD"]
  /** Image categories enabled when nothing has been saved yet. */
  const DefaultImageRules: seq<string> := ["FACE", "PLATE", "DOCUMENT"]
  /** Location fuzzing radius in metres when nothing has been saved yet. */
  const DefaultFuzzRadius: int := 100

  class AppStore {
    var textRules: seq<string>
    var imageRules: seq<string>
    var locationFuzzRadius: int
    var isLoading: bool
    var error: Option<string>

    /** The store's initial state. */
    predicate Initial()
      reads this
    {
      textRules == DefaultTextRules && imageRules == DefaultImageRules
      && locationFuzzRadius == DefaultFuzzRadius && !isLoading && error.None?
    }

    constructor ()
      ensures Initial()
    {
      textRules := DefaultTextRules;
      imageRules := DefaultImageRules;
      locationFuzzRadius := DefaultFuzzRadius;
      isLoading := false;
      error := None;
    }

    method SetTextRules(rules: seq<string>)
      modifies this
      ensures textRules == rules
      ensures imageRules == old(imageRules) && locationFuzzRadius == old(locationFuzzRadius)
      ensures isLoading == old(isLoading) && error == old(error)
    {
      textRules := rules;
    }

    method SetImageRules(rules: seq<string>)
      modifies this
      ensures imageRules == rules
      ensures textRules == old(textRules) && locationFuzzRadius == old(locationFuzzRadius)
      ensures isLoading == old(isLoading) && error == old(error)
    {
      imageRules := rules;
    }

    method SetLocationFuzzRadius(radius: int)
      modifies this
      ensures locationFuzzRadius == radius
      ensures textRules == old(textRules) && imageRules == old(imageRules)
      ensures isLoading == old(isLoading) && error == old(error)
    {
      locationFuzzRadius := radius;
    }

    method SetLoading(loading: bool)
      modifies this
      ensures isLoading == loading
      ensures textRules == old(textRules) && imageRules == old(imageRules)
      ensures locationFuzzRadius == old(locationFuzzRadius) && error == old(error)
    {
      isLoading := loading;
    }

    method SetError(e: Option<string>)
      modifies this
      ensures error == e
      ensures textRules == old(textRules) && imageRules == old(imageRules)
      ensures locationFuzzRadius == old(locationFuzzRadius) && isLoading == old(isLoading)
    {
      error := e;
    }

    method ResetError()
      modifies this
      ensures error.None?
      ensures textRules == old(textRules) && imageRules == old(imageRules)
      ensures locationFuzzRadius == old(locationFuzzRadius) && isLoading == old(isLoading)
    {
      error := None;
    }
  }

  /** GPS redaction is off until the user enables it, and no default category is listed twice. */
  lemma DefaultsDistinct()
    ensures "GPS" !in DefaultTextRules
    ensures NoDuplicates(DefaultTextRules) && NoDuplicates(DefaultImageRules)
  {
  }
}
