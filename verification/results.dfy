/** Failure-carrying values shared by the converters.

    The converters signal exactly one kind of failure, a parse error that
    carries the whole offending input text; absent values are modelled with
    `Option`.
 */
module Results {

  /** An optional value: `None` stands for JavaScript's `null`/`undefined`. */
  datatype Option<+T> = None | Some(value: T) {

    /** The wrapped value, or `default` when absent. */
    function GetOr(default: T): T {
      match this
      case Some(v) => v
      case None => default
    }
  }

  /** The single error kind of the converters: the text that could not be read. */
  datatype ParseError = ParseError(input: string) {

    /** The error message, which quotes the entire original input. */
    function Message(): (m: string)
      ensures |m| == |input| + 23
      ensures m[..22] == "invalid parsed value ["
      ensures m[22..|m| - 1] == input
      ensures m[|m| - 1] == ']'
    {
      "invalid parsed value [" + input + "]"
    }
  }

  /** Different inputs give different messages, so a message names its input. */
  lemma MessageNamesInput(a: ParseError, b: ParseError)
    requires a.Message() == b.Message()
    ensures a == b
  {
    assert a.input == a.Message()[22..|a.Message()| - 1];
  }

  /** The outcome of a parse: a value, or the parse error. */
  datatype Result<+T> = Ok(value: T) | Err(error: ParseError) {

    predicate IsFailure() {
      Err?
    }

    function PropagateFailure<U>(): Result<U>
      requires Err?
    {
      Err(error)
    }

    function Extract(): T
      requires Ok?
    {
      value
    }
  }
}
