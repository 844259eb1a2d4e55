/** classify/llm_client.py: run_llama3, with the environment variable and the
    `ollama run` subprocess passed in as a Backend value. */
module LlmClient {
  import opened Wrappers
  import opened Errors
  import opened PyStr

  /** What subprocess.run hands back with capture_output and text mode. */
  datatype Completed = Completed(returncode: int, stdout: string, stderr: string)

  /** OLLAMA_MODEL (None when unset) and the subprocess, as a function from
      (model, prompt) to its completion. */
  datatype Backend = Backend(model: Option<string>, run: (string, string) -> Completed)

  /** An unset or empty model name is refused before anything runs; a
      non-zero exit status is an error carrying the stripped stderr and the
      model name; otherwise the reply is stdout without surrounding
      whitespace. */
  function RunLlama3(backend: Backend, prompt: string): (r: Result<string, Error>)
    ensures r == Err(ModelNotConfigured) <==> backend.model.None? || backend.model.value == ""
    ensures r.Err? && r.error.ModelFailed? ==>
      && backend.model.Some?
      && r.error.model == backend.model.value
      && backend.run(backend.model.value, prompt).returncode != 0
    ensures r.Ok? ==>
      && backend.model.Some? && backend.model.value != ""
      && backend.run(backend.model.value, prompt).returncode == 0
      && (r.value == [] || (!IsSpace(r.value[0]) && !IsSpace(r.value[|r.value| - 1])))
    ensures backend.model.Some? && backend.model.value != "" ==>
      var done := backend.run(backend.model.value, prompt);
      r == if done.returncode != 0 then Err(ModelFailed(Strip(done.stderr), backend.model.value))
           else Ok(Strip(done.stdout))
  {
    match backend.model
    case None => Err(ModelNotConfigured)
    case Some(model) =>
      if model == "" then Err(ModelNotConfigured)
      else
        var done := backend.run(model, prompt);
        if done.returncode != 0 then Err(ModelFailed(Strip(done.stderr), model))
        else Ok(Strip(done.stdout))
  }

  /** A successful reply is the subprocess output with only whitespace
      margins removed: stdout == lead + reply + trail. */
  lemma ReplyIsTrimmedStdout(backend: Backend, prompt: string) returns (k: nat)
    requires RunLlama3(backend, prompt).Ok?
    ensures var out := backend.run(backend.model.value, prompt).stdout;
      var reply := RunLlama3(backend, prompt).value;
      && k + |reply| <= |out|
      && out == out[..k] + reply + out[k + |reply|..]
      && AllSpace(out[..k]) && AllSpace(out[k + |reply|..])
  {
    k := StripShape(backend.run(backend.model.value, prompt).stdout);
  }
}
