/** The few Python built-in behaviours the service relies on: optional values,
    results that either carry a value or the exception Python would raise,
    and the exceptions themselves. */
module Builtins {

  datatype Option<T> = None | Some(value: T)

  /** A Python call either returns a value or raises. */
  datatype Result<T> = Ok(value: T) | Err(error: Exception)

  /** Every exception the modelled code can raise, one constructor per cause. */
  datatype Exception =
    | LengthMismatch           // AssertionError: questions, answers and weights differ in length
    | WeightsNotNormalised     // AssertionError: the weights do not sum to 1.0
    | AnswerCountMismatch      // AssertionError: the generator returned the wrong number of answers
    | ZeroStep                 // ValueError: range() with a step of 0
    | UnsupportedModel(name: string)  // ValueError: unknown model name
    | EmptyIndex               // IndexError: [0] or [-1] on an empty list
    | MissingKey               // KeyError: a dictionary lookup of an absent key
    | ZeroDivision             // ZeroDivisionError
    | NoWeights                // AttributeError: .split() on None
    | NotAFloat(token: string) // ValueError: float() of a token that is not a number
    | UndecodableImage(filename: string)  // an upload the image decoder rejects
    | RequestValidation        // fastapi's RequestValidationError

  /** Python's slice xs[:k]: a non-negative k keeps the first min(k, |xs|)
      elements, a negative k drops -k elements from the end. */
  function SliceTo<T>(xs: seq<T>, k: int): (r: seq<T>)
    ensures k >= 0 ==> |r| == if k < |xs| then k else |xs|
    ensures k < 0 ==> |r| == if |xs| + k > 0 then |xs| + k else 0
    ensures r == xs[..|r|]
  {
    var stop := if k >= 0 then k else |xs| + k;
    if stop <= 0 then [] else if stop >= |xs| then xs else xs[..stop]
  }
}
