/** pkg/speechly/slu/intent.go: the intent of a segment. */
module Intents {
  import opened Wrappers
  import opened SluErrors

  /** The API's intent message; `None` stands for nil. */
  datatype WireIntent = WireIntent(intent: string)

  /** An empty `value` means that no intent has been detected yet. */
  datatype Intent = Intent(value: string, isFinalised: bool)

  /** Go's zero `Intent{}`. */
  const Zero := Intent("", false)

  /** Fills the receiver `i` from `v`; a nil message is an error and leaves
      the receiver as it was. */
  function Parse(i: Intent, v: Option<WireIntent>, isTentative: bool): (r: (Intent, Option<Error>))
    ensures v.None? ==> r == (i, Some(NilValue))
    ensures v.Some? ==> r.1 == None
    ensures v.Some? ==> r.0.value == v.value.intent
    ensures v.Some? ==> (r.0.isFinalised <==> !isTentative)
  {
    match v
    case None => (i, Some(NilValue))
    case Some(w) => (Intent(w.intent, !isTentative), None)
  }

  /** A successful parse overwrites every field, so what the reused receiver
      held before has no influence on the result. */
  lemma ParseForgetsReceiver(i1: Intent, i2: Intent, v: Option<WireIntent>, isTentative: bool)
    requires v.Some?
    ensures Parse(i1, v, isTentative) == Parse(i2, v, isTentative)
  {
  }
}
