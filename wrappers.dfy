/** Option and Result: the failure-carrying values that stand in for Python's
    `None` returns and raised exceptions throughout the model. */
module Wrappers {

  datatype Option<+T> = None | Some(value: T)

  datatype Result<+T, +E> = Ok(value: T) | Err(error: E) {
    predicate IsFailure() { Err? }

    function PropagateFailure<U>(): Result<U, E>
      requires Err?
    {
      Err(error)
    }

    function Extract(): T
      requires Ok?
    {
      value
    }
  }
}

/** The exceptions the classification pipeline can raise, one constructor per
    distinct Python exception site. */
module Errors {

  /** Why the classifier rejected the model's reply (both are reported by
      classify_event as one ValueError whose message embeds the cause). */
  datatype ParseFailure =
    | NoBlock            // extract_json_block found no bracket pair
    | BlockUndecodable   // the extracted block is not valid JSON

  datatype Error =
    | UnknownTemplate(name: string)          // load_prompt: name outside the fixed map
    | TemplateFileMissing(name: string)      // open() on a template file that does not exist
    | MissingFormatField(field: string)      // str.format: a field other than text/events
    | ModelNotConfigured                     // run_llama3: OLLAMA_MODEL unset or empty
    | ModelFailed(stderr: string, model: string)  // run_llama3: non-zero exit status
    | NoJsonFound                            // extract_json_block: no match
    | UnparsableOutput(why: ParseFailure)    // classify_event: neither parse succeeded
}
