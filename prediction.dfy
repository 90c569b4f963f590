/**
 * The prediction panel: the classifier loaded from its pickle file is
 * called on the user's link, any exception is turned into `None`, and the
 * result picks the message the page shows.
 */
module Prediction {
  import opened Wrappers

  /** What one call of the loaded classifier's `predict([url])` does: it
      raises, or it returns the list of predicted labels. */
  datatype Outcome = Raised | Returned(labels: seq<string>)

  /** The classifier is a black box: any function from the input to an
      outcome. `None` stands for a classifier whose pickle could not be
      loaded, so that the name `classifier` was never bound. */
  type Classifier = Option<string -> Outcome>

  /** `predict_website_status(user_input)`: the classifier's output
      unchanged, or `None` when the call raises; calling a classifier that
      was never loaded raises too (a `NameError`, caught like any other
      exception). */
  function PredictWebsiteStatus(classifier: Classifier, input: string): (result: Option<seq<string>>)
    ensures result.None? <==> classifier.None? || classifier.value(input).Raised?
    ensures result.Some? ==> classifier.Some? && classifier.value(input) == Returned(result.value)
  {
    match classifier
    case None => None
    case Some(predict) =>
      match predict(input)
      case Raised => None
      case Returned(labels) => Some(labels)
  }

  /** The message the prediction panel shows. `NoMessage` is the silent
      case of a first label other than "good" or "bad"; `IndexError` is
      the uncaught exception that `result[0]` raises on an empty list. */
  datatype Message = Safe | Malicious | UnableToPredict | NoMessage | IndexError

  /** The branch on `result` that draws the message. */
  function ShowResult(result: Option<seq<string>>): (msg: Message)
    ensures msg == UnableToPredict <==> result.None?
    ensures msg == Safe <==> result.Some? && |result.value| > 0 && result.value[0] == "good"
    ensures msg == Malicious <==> result.Some? && |result.value| > 0 && result.value[0] == "bad"
    ensures msg == NoMessage <==>
              result.Some? && |result.value| > 0 && result.value[0] != "good" && result.value[0] != "bad"
    ensures msg == IndexError <==> result == Some([])
  {
    match result
    case None => UnableToPredict
    case Some(labels) =>
      if |labels| == 0 then IndexError
      else if labels[0] == "good" then Safe
      else if labels[0] == "bad" then Malicious
      else NoMessage
  }

  /** One run of the prediction panel: `result` starts as `None`, the
      classifier is called only when the button was pressed, and the
      message follows from `result`. */
  method PredictionPanel(classifier: Classifier, input: string, pressed: bool) returns (msg: Message)
    ensures msg == UnableToPredict <==>
              !pressed || classifier.None? || classifier.value(input).Raised?
    ensures msg == Safe <==>
              pressed && classifier.Some? && classifier.value(input).Returned?
              && |classifier.value(input).labels| > 0 && classifier.value(input).labels[0] == "good"
    ensures msg == Malicious <==>
              pressed && classifier.Some? && classifier.value(input).Returned?
              && |classifier.value(input).labels| > 0 && classifier.value(input).labels[0] == "bad"
    ensures msg == NoMessage <==>
              pressed && classifier.Some? && classifier.value(input).Returned?
              && |classifier.value(input).labels| > 0
              && classifier.value(input).labels[0] != "good" && classifier.value(input).labels[0] != "bad"
    ensures msg == IndexError <==>
              pressed && classifier.Some? && classifier.value(input) == Returned([])
  {
    var result: Option<seq<string>> := None;
    if pressed {
      result := PredictWebsiteStatus(classifier, input);
    }
    msg := ShowResult(result);
  }
}
