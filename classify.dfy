/** classify/classify.py: the template name map, the prompt formatting and
    the two-stage parse of the model's reply. The prompt files, the model
    backend and json.loads are passed in through an Env value. */
module Classify {
  import opened Wrappers
  import opened Errors
  import opened Json
  import opened PyStr
  import opened Validator
  import opened LlmClient

  // ---------------------------------------------------------------------
  // load_prompt

  /** The fixed name-to-file map: exactly two templates exist. */
  const TemplateFiles: map<string, string> := map["zero_shot.tpl" := "zero_shot.tpl", "cot.tpl" := "cot.tpl"]

  /** A template as str.format reads it: literal runs (with "{{" and "}}"
      already turned into single braces) and named replacement fields. */
  datatype Piece = Lit(text: string) | Field(name: string)

  /** Reads the template file a known name maps to. `files` is the prompts
      directory: None for a file that is not there. */
  function LoadPrompt(name: string, files: string -> Option<string>): (r: Result<string, Error>)
    ensures r == Err(UnknownTemplate(name)) <==> name != "zero_shot.tpl" && name != "cot.tpl"
    ensures r.Ok? ==> files(name) == Some(r.value)
    ensures r.Err? && !r.error.UnknownTemplate? ==> r == Err(TemplateFileMissing(name)) && files(name).None?
    ensures name in TemplateFiles ==>
      r == if files(name).Some? then Ok(files(name).value) else Err(TemplateFileMissing(name))
  {
    if name !in TemplateFiles then Err(UnknownTemplate(name))
    else
      match files(TemplateFiles[name])
      case None => Err(TemplateFileMissing(TemplateFiles[name]))
      case Some(t) => Ok(t)
  }

  /** The variant the flag selects. */
  function PromptName(useCot: bool): (r: string)
    ensures r == "cot.tpl" <==> useCot
    ensures r in TemplateFiles
  {
    if useCot then "cot.tpl" else "zero_shot.tpl"
  }

  // ---------------------------------------------------------------------
  // prompt.format(text=..., events=json.dumps(events))

  predicate KnownField(name: string) {
    name == "text" || name == "events"
  }

  predicate BadPiece(p: Piece) {
    p.Field? && !KnownField(p.name)
  }

  function PieceText(p: Piece, text: string, events: string): Result<string, Error> {
    match p
    case Lit(t) => Ok(t)
    case Field(name) =>
      if name == "text" then Ok(text)
      else if name == "events" then Ok(events)
      else Err(MissingFormatField(name))
  }

  /** str.format with the two keyword arguments: it fails, at the leftmost
      such field, exactly when the template names a field other than
      `text` and `events`. */
  function Format(pieces: seq<Piece>, text: string, events: string): (r: Result<string, Error>)
    ensures r.Err? <==> exists i :: 0 <= i < |pieces| && BadPiece(pieces[i])
    ensures r.Err? ==> r.error.MissingFormatField?
    ensures r.Err? ==>
      exists i :: 0 <= i < |pieces| && pieces[i] == Field(r.error.field) && BadPiece(pieces[i])
        && forall k :: 0 <= k < i ==> !BadPiece(pieces[k])
  {
    if pieces == [] then Ok("")
    else
      assert forall k :: 1 <= k < |pieces| ==> pieces[k] == pieces[1..][k - 1];
      match PieceText(pieces[0], text, events)
      case Err(e) => Err(e)
      case Ok(head) =>
        match Format(pieces[1..], text, events)
        case Err(e) => Err(e)
        case Ok(tail) => Ok(head + tail)
  }

  /** Formatting distributes over concatenation of templates: the output of
      a + b is that of a followed by that of b, and an error in a wins. */
  lemma {:induction false} FormatConcat(a: seq<Piece>, b: seq<Piece>, text: string, events: string)
    ensures Format(a + b, text, events) ==
      if Format(a, text, events).Err? then Format(a, text, events)
      else if Format(b, text, events).Err? then Format(b, text, events)
      else Ok(Format(a, text, events).value + Format(b, text, events).value)
  {
    if a == [] {
      assert a + b == b;
      if Format(b, text, events).Ok? {
        assert "" + Format(b, text, events).value == Format(b, text, events).value;
      }
    } else {
      assert (a + b)[1..] == a[1..] + b;
      assert (a + b)[0] == a[0];
      FormatConcat(a[1..], b, text, events);
      var h := PieceText(a[0], text, events);
      var rest := Format(a[1..], text, events);
      var fb := Format(b, text, events);
      if h.Ok? && rest.Ok? && fb.Ok? {
        assert h.value + (rest.value + fb.value) == (h.value + rest.value) + fb.value;
      }
    }
  }

  /** One piece on its own: a literal is copied, a known field is the
      matching argument. */
  lemma FormatSingle(p: Piece, text: string, events: string)
    ensures Format([p], text, events) == PieceText(p, text, events)
  {
    assert [p][1..] == [];
    assert Format([], text, events) == Ok("");
    if PieceText(p, text, events).Ok? {
      assert PieceText(p, text, events).value + "" == PieceText(p, text, events).value;
    }
  }

  /** A well-formed template with a {text} field embeds the filing text
      verbatim: unlike build_prompt, a "{events}" inside the text stays. */
  lemma FormatEmbedsText(pieces: seq<Piece>, text: string, events: string, i: nat)
    requires i < |pieces| && pieces[i] == Field("text")
    requires Format(pieces, text, events).Ok?
    ensures Contains(Format(pieces, text, events).value, text)
  {
    assert pieces == pieces[..i] + [pieces[i]] + pieces[i + 1..];
    FormatConcat(pieces[..i] + [pieces[i]], pieces[i + 1..], text, events);
    FormatConcat(pieces[..i], [pieces[i]], text, events);
    FormatSingle(pieces[i], text, events);
    ContainsSelf(text);
    ContainsInRight(Format(pieces[..i], text, events).value, text, text);
    ContainsInLeft(Format(pieces[..i], text, events).value + text,
      Format(pieces[i + 1..], text, events).value, text);
  }

  /** json.dumps(events): the labels as a JSON list of strings. */
  function LabelsJson(events: seq<string>): string {
    Serialize(Arr(seq(|events|, i requires 0 <= i < |events| => Str(events[i]))))
  }

  /** The label list in the prompt reads back as the labels, in order. */
  lemma LabelsJsonRoundTrip(parse: string -> Option<Json>, events: seq<string>)
    requires DecodesEncoding(parse)
    ensures var v := parse(LabelsJson(events));
      && v.Some? && v.value.Arr? && |v.value.items| == |events|
      && forall i :: 0 <= i < |events| ==> v.value.items[i] == Str(events[i])
  {
  }

  // ---------------------------------------------------------------------
  // The try/except cascade of classify_event

  /** The whole reply is tried first and, only when it is not JSON, the
      extracted block; the result is json.dumps of whichever parsed. When
      neither does, that is the one reported error, recording which stage
      failed. Nothing checks the shape of what parsed. */
  function ParseReply(parse: string -> Option<Json>, reply: string): (r: Result<string, Error>)
    ensures r.Ok? ==> exists v :: r.value == Serialize(v)
    ensures parse(reply).Some? ==> r == Ok(Serialize(parse(reply).value))
    ensures parse(reply).None? ==>
      match ExtractJsonBlock(reply)
      case Err(_) => r == Err(UnparsableOutput(NoBlock))
      case Ok(block) =>
        if parse(block).Some? then r == Ok(Serialize(parse(block).value))
        else r == Err(UnparsableOutput(BlockUndecodable))
  {
    match parse(reply)
    case Some(v) => Ok(Serialize(v))
    case None =>
      match ExtractJsonBlock(reply)
      case Err(_) => Err(UnparsableOutput(NoBlock))
      case Ok(block) =>
        match parse(block)
        case None => Err(UnparsableOutput(BlockUndecodable))
        case Some(v) => Ok(Serialize(v))
  }

  /** The prompts directory, how str.format splits a template's text into
      pieces, the model and json.loads the classifier runs against. */
  datatype Env = Env(files: string -> Option<string>, pieces: string -> seq<Piece>, backend: Backend, parse: string -> Option<Json>)

  /** The prompt classify_event sends. */
  function ClassifyPrompt(env: Env, text: string, events: seq<string>, useCot: bool): (r: Result<string, Error>)
    ensures r.Err? ==> !r.error.UnknownTemplate?
    ensures r.Ok? ==>
      && env.files(PromptName(useCot)).Some?
      && Format(env.pieces(env.files(PromptName(useCot)).value), text, LabelsJson(events)) == r
    ensures env.files(PromptName(useCot)).None? ==> r == Err(TemplateFileMissing(PromptName(useCot)))
    ensures env.files(PromptName(useCot)).Some? ==>
      r == Format(env.pieces(env.files(PromptName(useCot)).value), text, LabelsJson(events))
  {
    var template :- LoadPrompt(PromptName(useCot), env.files);
    Format(env.pieces(template), text, LabelsJson(events))
  }

  /** classify_event: build the prompt, ask the model, run the parse
      cascade on its answer; the first failure is the result. */
  function ClassifyEvent(env: Env, text: string, events: seq<string>, useCot: bool): (r: Result<string, Error>)
    ensures r.Err? ==> !r.error.UnknownTemplate?
    ensures r.Ok? ==> exists v :: r.value == Serialize(v)
    ensures var prompt := ClassifyPrompt(env, text, events, useCot);
      if prompt.Err? then r == Err(prompt.error)
      else
        var reply := RunLlama3(env.backend, prompt.value);
        r == if reply.Ok? then ParseReply(env.parse, reply.value) else Err(reply.error)
  {
    var prompt :- ClassifyPrompt(env, text, events, useCot);
    var reply :- RunLlama3(env.backend, prompt);
    ParseReply(env.parse, reply)
  }

  /** End to end, in terms of the template file, the placeholder filling and
      the subprocess: when the file is there, every placeholder is filled,
      a model is configured and its process exits with status 0, the result
      is the parse cascade run on that process's stripped standard output. */
  lemma ClassifyFromProcess(env: Env, text: string, events: seq<string>, useCot: bool, template: string, prompt: string)
    requires env.files(PromptName(useCot)) == Some(template)
    requires Format(env.pieces(template), text, LabelsJson(events)) == Ok(prompt)
    requires env.backend.model.Some? && env.backend.model.value != ""
    requires env.backend.run(env.backend.model.value, prompt).returncode == 0
    ensures ClassifyEvent(env, text, events, useCot) ==
      ParseReply(env.parse, Strip(env.backend.run(env.backend.model.value, prompt).stdout))
  {
    assert ClassifyPrompt(env, text, events, useCot) == Ok(prompt);
    assert RunLlama3(env.backend, prompt) == Ok(Strip(env.backend.run(env.backend.model.value, prompt).stdout));
  }

  /** When the model's whole reply is JSON, the classifier returns it
      re-serialized. */
  lemma DirectReplyAccepted(env: Env, text: string, events: seq<string>, useCot: bool, reply: string, v: Json)
    requires ClassifyPrompt(env, text, events, useCot).Ok?
    requires RunLlama3(env.backend, ClassifyPrompt(env, text, events, useCot).value) == Ok(reply)
    requires env.parse(reply) == Some(v)
    ensures ClassifyEvent(env, text, events, useCot) == Ok(Serialize(v))
  {
  }

  // ---------------------------------------------------------------------
  // Properties of the parse cascade

  /** What the classifier returns is JSON text that reads back as the value
      that was accepted, and feeding it through the cascade again changes
      nothing. */
  lemma ResultReparses(parse: string -> Option<Json>, reply: string)
    requires DecodesEncoding(parse)
    requires ParseReply(parse, reply).Ok?
    ensures parse(ParseReply(parse, reply).value).Some?
    ensures Serialize(parse(ParseReply(parse, reply).value).value) == ParseReply(parse, reply).value
    ensures ParseReply(parse, ParseReply(parse, reply).value) == ParseReply(parse, reply)
  {
  }

  /** A list of flat items wrapped in prose without brackets, which is not
      JSON as a whole, is recovered by the block stage. */
  lemma ProseWrappedListAccepted(parse: string -> Option<Json>, pre: string, items: seq<Json>, post: string)
    requires DecodesEncoding(parse)
    requires '[' !in pre && '{' !in pre
    requires forall i :: 0 <= i < |items| ==> Flat(items[i])
    requires parse(pre + Serialize(Arr(items)) + post).None?
    ensures ParseReply(parse, pre + Serialize(Arr(items)) + post) == Ok(Serialize(Arr(items)))
  {
    var l := Serialize(Arr(items));
    var t := pre + l + post;
    FlatListShape(items);
    var i, j := |pre|, |pre| + |l| - 1;
    assert t[i + 1..][j - i - 1] == t[j] == ']';
    assert MatchAt(t, i);
    forall k | 0 <= k < i ensures !MatchAt(t, k) {
      assert t[k] == pre[k] && pre[k] in pre;
    }
    assert t[i + 1..j] == l[1..|l| - 1];
    ExtractionDeterminedBy(t, i, j);
    assert t[i..j + 1] == l;
  }

  /** The reply "Here is the answer: <list> Thank you." is accepted. */
  lemma AnswerInSentenceAccepted(parse: string -> Option<Json>, items: seq<Json>, reply: string)
    requires DecodesEncoding(parse)
    requires forall i :: 0 <= i < |items| ==> Flat(items[i])
    requires reply == "Here is the answer: " + Serialize(Arr(items)) + " Thank you."
    requires parse(reply).None?
    ensures ParseReply(parse, reply) == Ok(Serialize(Arr(items)))
  {
    ProseWrappedListAccepted(parse, "Here is the answer: ", items, " Thank you.");
  }

  /** A reply that is not JSON and holds no '[' or '{' (a refusal, say) is
      reported as having no JSON block. */
  lemma RefusalRejected(parse: string -> Option<Json>, reply: string)
    requires '[' !in reply && '{' !in reply
    requires parse(reply).None?
    ensures ParseReply(parse, reply) == Err(UnparsableOutput(NoBlock))
  {
    NoBracketsNoBlock(reply);
  }

  /** A reasoning-style answer (an object whose "Events" list starts with an
      object) wrapped in prose is cut at the first '}', which closes the
      first event rather than the answer; the cut text is not JSON, so the
      classifier fails. */
  lemma ProseWrappedReasoningRejected(parse: string -> Option<Json>, pre: string, ms: seq<Member>,
                                      items: seq<Json>, post: string)
    requires RejectsCutObjects(parse)
    requires '[' !in pre && '{' !in pre
    requires Get(ms, "Events") == Some(Arr(items)) && |items| > 0 && items[0].Obj?
    requires parse(pre + Serialize(Obj(ms)) + post).None?
    ensures ParseReply(parse, pre + Serialize(Obj(ms)) + post) == Err(UnparsableOutput(BlockUndecodable))
  {
    var o := Serialize(Obj(ms));
    InnerCloseBrace(ms, "Events", items);
    var n := CutAtInnerBrace(pre, o, post);
    assert parse(o[..n]) == None;
  }

  /** The block found in pre + o + post, when o is an object text with a '}'
      inside it and pre has no opener, is a proper prefix of o. */
  lemma CutAtInnerBrace(pre: string, o: string, post: string) returns (n: nat)
    requires '[' !in pre && '{' !in pre
    requires |o| >= 2 && o[0] == '{' && '}' in o[1..|o| - 1]
    ensures 0 < n < |o| && ExtractJsonBlock(pre + o + post) == Ok(o[..n])
  {
    var t := pre + o + post;
    var p :| 0 <= p < |o| - 2 && o[1..|o| - 1][p] == '}';
    var i, c := |pre|, |pre| + 1 + p;
    assert t[i] == '{' && t[c] == '}';
    forall k | 0 <= k < i ensures !IsOpener(t[k]) {
      assert t[k] == pre[k] && pre[k] in pre;
    }
    var j := BlockEndsByCloser(t, i, c);
    n := j - i + 1;
    assert t[i..j + 1] == o[..n];
  }
}
