/** api/routes.py, the helpers the two classification handlers share:
    clean_filing_text, the file name taken from the URL, the display label
    of a template, and the choice of prompt and validator for a template
    name. The handlers' downloads, database writes and HTTP errors are not
    part of this model. */
module Routes {
  import opened Wrappers
  import opened Errors
  import opened Json
  import opened PyStr
  import opened Validator
  import opened Classify
  import opened LlmClient

  // ---------------------------------------------------------------------
  // clean_filing_text: re.sub(r'\s+', ' ', text).strip()

  /** re.sub(r'\s+', ' ', s): each maximal run of whitespace becomes one
      space. */
  function CollapseSpace(s: string): string
    decreases |s|
  {
    if s == [] then []
    else if IsSpace(s[0]) then
      assert LStrip(s) == [] || |LStrip(s)| < |s|;
      " " + CollapseSpace(LStrip(s))
    else [s[0]] + CollapseSpace(s[1..])
  }

  function CleanFilingText(s: string): string {
    Strip(CollapseSpace(s))
  }

  // The reference: the words of the text joined by single spaces.

  predicate IsWord(w: string) {
    w != [] && forall i :: 0 <= i < |w| ==> !IsSpace(w[i])
  }

  /** The longest prefix of t without whitespace. */
  function WordPrefix(t: string): (w: string)
    ensures |w| <= |t| && w == t[..|w|]
    ensures forall i :: 0 <= i < |w| ==> !IsSpace(w[i])
    ensures |w| == |t| || IsSpace(t[|w|])
  {
    if t == [] || IsSpace(t[0]) then [] else [t[0]] + WordPrefix(t[1..])
  }

  /** str.split() with no argument: the maximal runs of non-whitespace. */
  function Words(s: string): (ws: seq<string>)
    ensures forall i :: 0 <= i < |ws| ==> IsWord(ws[i])
    decreases |s|
  {
    if s == [] then []
    else if IsSpace(s[0]) then Words(s[1..])
    else
      var w := WordPrefix(s);
      assert w != [] && IsWord(w);
      [w] + Words(s[|w|..])
  }

  function Unwords(ws: seq<string>): string {
    Join(" ", ws)
  }

  /** Every non-whitespace character, in order. */
  function NonSpace(s: string): string {
    if s == [] then [] else (if IsSpace(s[0]) then [] else [s[0]]) + NonSpace(s[1..])
  }

  // Helper facts about strip and the word split

  lemma {:induction false} LStripDropsSpace(a: string, x: string)
    requires AllSpace(a) && (x == [] || !IsSpace(x[0]))
    ensures LStrip(a + x) == x
    decreases |a|
  {
    if a != [] {
      assert (a + x)[1..] == a[1..] + x;
      LStripDropsSpace(a[1..], x);
    } else {
      assert a + x == x;
    }
  }

  lemma {:induction false} RStripDropsSpace(y: string, b: string)
    requires AllSpace(b) && (y == [] || !IsSpace(y[|y| - 1]))
    ensures RStrip(y + b) == y
    decreases |b|
  {
    if b != [] {
      assert (y + b)[..|y + b| - 1] == y + b[..|b| - 1];
      RStripDropsSpace(y, b[..|b| - 1]);
    } else {
      assert y + b == y;
    }
  }

  /** strip() of a string framed by whitespace is the string. */
  lemma StripFrame(a: string, m: string, b: string)
    requires AllSpace(a) && AllSpace(b)
    requires m == [] || (!IsSpace(m[0]) && !IsSpace(m[|m| - 1]))
    ensures Strip(a + m + b) == m
  {
    if m == [] {
      assert a + m + b == a + b;
      assert AllSpace(a + b);
      LStripDropsSpace(a + b, []);
      assert a + b + [] == a + b;
    } else {
      assert a + m + b == a + (m + b);
      LStripDropsSpace(a, m + b);
      RStripDropsSpace(m, b);
    }
  }

  lemma {:induction false} WordsSkipsSpace(s: string)
    ensures Words(s) == Words(LStrip(s))
    decreases |s|
  {
    if s != [] && IsSpace(s[0]) {
      WordsSkipsSpace(s[1..]);
    }
  }

  lemma {:induction false} PassWord(w: string, t: string)
    requires forall i :: 0 <= i < |w| ==> !IsSpace(w[i])
    ensures CollapseSpace(w + t) == w + CollapseSpace(t)
    decreases |w|
  {
    if w != [] {
      assert (w + t)[0] == w[0];
      assert (w + t)[1..] == w[1..] + t;
      PassWord(w[1..], t);
    } else {
      assert w + t == t;
    }
  }

  lemma {:induction false} UnwordsEnds(ws: seq<string>)
    requires forall i :: 0 <= i < |ws| ==> IsWord(ws[i])
    ensures ws != [] ==> Unwords(ws) != []
    ensures Unwords(ws) == [] || (!IsSpace(Unwords(ws)[0]) && !IsSpace(Unwords(ws)[|Unwords(ws)| - 1]))
  {
    if |ws| >= 2 {
      UnwordsEnds(ws[1..]);
      var u := Unwords(ws[1..]);
      assert Unwords(ws) == ws[0] + " " + u;
    } else if |ws| == 1 {
      assert IsWord(ws[0]);
    }
  }

  /** The whitespace a space-free string ends in, collapsed. */
  function Trail(u: string): string {
    if u != [] && IsSpace(u[|u| - 1]) then " " else ""
  }

  lemma WordsCons(u: string)
    requires u != [] && !IsSpace(u[0])
    ensures Words(u) == [WordPrefix(u)] + Words(u[|WordPrefix(u)|..])
  {
  }

  lemma CollapseRun(t: string)
    requires t != [] && IsSpace(t[0])
    ensures CollapseSpace(t) == " " + CollapseSpace(LStrip(t))
  {
  }

  lemma UnwordsCons(w: string, ws: seq<string>)
    requires ws != []
    ensures Unwords([w] + ws) == w + " " + Unwords(ws)
  {
    assert ([w] + ws)[1..] == ws;
  }

  /** Collapsing a string that starts with a word gives its words joined by
      single spaces, plus one space if it ended in whitespace. */
  lemma {:induction false} CollapseIsWords(u: string)
    requires u == [] || !IsSpace(u[0])
    ensures CollapseSpace(u) == Unwords(Words(u)) + Trail(u)
    decreases |u|
  {
    if u != [] {
      var w := WordPrefix(u);
      var t := u[|w|..];
      assert u == w + t;
      WordsCons(u);
      PassWord(w, t);
      if t == [] {
        assert Unwords([w]) == w;
        assert Trail(u) == "" by {
          assert u[|u| - 1] == w[|w| - 1];
        }
      } else {
        var u' := LStrip(t);
        CollapseRun(t);
        WordsSkipsSpace(t);
        CollapseIsWords(u');
        assert u[|u| - |t|..] == t;
        if u' == [] {
          AllSpaceEnd(t);
        }
        TrailAfterRun(u, t, u');
        if u' != [] {
          WordsCons(u');
        }
        CollapseStep(w, Words(u'), Trail(u'), Trail(u));
      }
    }
  }

  /** The string algebra of the inductive step of CollapseIsWords. */
  lemma CollapseStep(w: string, ws': seq<string>, tr': string, tr: string)
    requires ws' == [] ==> tr == " " && tr' == ""
    requires ws' != [] ==> tr == tr'
    ensures w + (" " + (Unwords(ws') + tr')) == Unwords([w] + ws') + tr
  {
    if ws' == [] {
      assert Unwords([w]) == w;
    } else {
      UnwordsCons(w, ws');
    }
  }

  /** Where the rest of the text after a whitespace run is empty, the text
      ends in whitespace; otherwise it ends as that rest does. */
  lemma TrailAfterRun(u: string, t: string, u': string)
    requires |t| <= |u| && u[|u| - |t|..] == t && t != []
    requires |u'| <= |t| && u' == t[|t| - |u'|..]
    requires u' == [] ==> IsSpace(t[|t| - 1])
    ensures u' == [] ==> Trail(u) == " "
    ensures u' != [] ==> Trail(u) == Trail(u')
  {
    assert u[|u| - 1] == t[|t| - 1];
    if u' != [] {
      assert t[|t| - 1] == u'[|u'| - 1];
    }
  }

  lemma AllSpaceEnd(t: string)
    requires t != [] && LStrip(t) == []
    ensures IsSpace(t[|t| - 1])
  {
  }

  /** The space a leading whitespace run collapses to. */
  function Lead(s: string): string {
    if s != [] && IsSpace(s[0]) then " " else ""
  }

  lemma CollapseLead(s: string)
    ensures CollapseSpace(s) == Lead(s) + CollapseSpace(LStrip(s))
  {
    if s != [] && IsSpace(s[0]) {
      CollapseRun(s);
    } else {
      assert CollapseSpace(s) == "" + CollapseSpace(s);
    }
  }

  /** re.sub alone: the words joined by single spaces, with one space for
      each whitespace margin. */
  lemma CollapseShape(s: string)
    ensures CollapseSpace(s) == Lead(s) + (Unwords(Words(s)) + Trail(LStrip(s)))
  {
    var u := LStrip(s);
    CollapseLead(s);
    CollapseIsWords(u);
    WordsSkipsSpace(s);
  }

  /** clean_filing_text is `' '.join(text.split())`. */
  lemma CleanIsUnwordsOfWords(s: string)
    ensures CleanFilingText(s) == Unwords(Words(s))
  {
    CollapseShape(s);
    UnwordsEnds(Words(s));
    StripOfMargins(CollapseSpace(s), Lead(s), Unwords(Words(s)), Trail(LStrip(s)));
  }

  /** A single-space-or-empty margin on each side is what strip() removes. */
  lemma StripOfMargins(c: string, a: string, m: string, b: string)
    requires c == a + (m + b)
    requires a == "" || a == " "
    requires b == "" || b == " "
    requires m == [] || (!IsSpace(m[0]) && !IsSpace(m[|m| - 1]))
    ensures Strip(c) == m
  {
    assert c == a + m + b;
    assert AllSpace(a) && AllSpace(b);
    StripFrame(a, m, b);
  }

  lemma {:induction false} WordPrefixOfWord(w: string, t: string)
    requires IsWord(w) && (t == [] || IsSpace(t[0]))
    ensures WordPrefix(w + t) == w
    decreases |w|
  {
    assert (w + t)[0] == w[0];
    if |w| > 1 {
      assert (w + t)[1..] == w[1..] + t;
      WordPrefixOfWord(w[1..], t);
    } else {
      assert (w + t)[1..] == t;
    }
  }

  /** Splitting words joined by single spaces gives the words back. */
  lemma {:induction false} WordsOfUnwords(ws: seq<string>)
    requires forall i :: 0 <= i < |ws| ==> IsWord(ws[i])
    ensures Words(Unwords(ws)) == ws
  {
    if |ws| == 1 {
      WordsOfWord(ws[0]);
    } else if |ws| >= 2 {
      var tail := ws[1..];
      var rest := Unwords(tail);
      assert forall i :: 0 <= i < |tail| ==> tail[i] == ws[i + 1];
      UnwordsCons(ws[0], tail);
      assert [ws[0]] + tail == ws;
      assert ws[0] + (" " + rest) == ws[0] + " " + rest;
      WordsAfterWord(ws[0], rest);
      WordsOfUnwords(tail);
    }
  }

  lemma WordsOfWord(w: string)
    requires IsWord(w)
    ensures Words(w) == [w]
  {
    WordPrefixOfWord(w, []);
    assert w + [] == w;
    assert w[|w|..] == [];
  }

  lemma WordsAfterWord(w: string, rest: string)
    requires IsWord(w)
    ensures Words(w + (" " + rest)) == [w] + Words(rest)
  {
    var j := w + (" " + rest);
    WordPrefixOfWord(w, " " + rest);
    assert j[|w|..] == " " + rest;
    assert (" " + rest)[1..] == rest;
  }

  /** Cleaning twice is cleaning once. */
  lemma CleanIdempotent(s: string)
    ensures CleanFilingText(CleanFilingText(s)) == CleanFilingText(s)
  {
    CleanIsUnwordsOfWords(s);
    CleanIsUnwordsOfWords(CleanFilingText(s));
    WordsOfUnwords(Words(s));
  }

  /** Inside words joined by single spaces, every whitespace character is a
      ' ' with a non-whitespace character on each side. */
  lemma {:induction false} UnwordsSpacing(ws: seq<string>)
    requires forall i :: 0 <= i < |ws| ==> IsWord(ws[i])
    ensures var r := Unwords(ws);
      forall i :: 0 <= i < |r| && IsSpace(r[i]) ==>
        r[i] == ' ' && 0 < i < |r| - 1 && !IsSpace(r[i - 1]) && !IsSpace(r[i + 1])
  {
    if |ws| >= 2 {
      var w := ws[0];
      var rest := Unwords(ws[1..]);
      UnwordsSpacing(ws[1..]);
      UnwordsEnds(ws[1..]);
      var r := Unwords(ws);
      assert r == w + " " + rest;
      forall i | 0 <= i < |r| && IsSpace(r[i])
        ensures r[i] == ' ' && 0 < i < |r| - 1 && !IsSpace(r[i - 1]) && !IsSpace(r[i + 1])
      {
        if i == |w| {
          assert r[i - 1] == w[|w| - 1];
          assert r[i + 1] == rest[0];
        } else if i > |w| {
          assert r[i] == rest[i - |w| - 1];
          if i - |w| - 1 > 0 {
            assert r[i - 1] == rest[i - |w| - 2];
          }
          assert r[i + 1] == rest[i - |w|];
        }
      }
    } else if |ws| == 1 {
      assert IsWord(ws[0]);
    }
  }

  /** The cleaned text has no whitespace at either end, and inside it each
      whitespace character is a single ' ' between two non-whitespace ones. */
  lemma CleanSpacing(s: string)
    ensures var r := CleanFilingText(s);
      && (r == [] || (!IsSpace(r[0]) && !IsSpace(r[|r| - 1])))
      && forall i :: 0 <= i < |r| && IsSpace(r[i]) ==>
           r[i] == ' ' && 0 < i < |r| - 1 && !IsSpace(r[i - 1]) && !IsSpace(r[i + 1])
  {
    CleanIsUnwordsOfWords(s);
    UnwordsEnds(Words(s));
    UnwordsSpacing(Words(s));
  }

  lemma {:induction false} NonSpaceConcat(x: string, y: string)
    ensures NonSpace(x + y) == NonSpace(x) + NonSpace(y)
  {
    if x == [] {
      assert x + y == y;
    } else {
      assert (x + y)[1..] == x[1..] + y;
      NonSpaceConcat(x[1..], y);
    }
  }

  lemma {:induction false} NonSpaceOfSpace(a: string)
    requires AllSpace(a)
    ensures NonSpace(a) == []
  {
    if a != [] {
      NonSpaceOfSpace(a[1..]);
    }
  }

  lemma NonSpaceOfStrip(s: string)
    ensures NonSpace(Strip(s)) == NonSpace(s)
  {
    var k := StripShape(s);
    NonSpaceOfFrame(s[..k], Strip(s), s[k + |Strip(s)|..]);
  }

  lemma NonSpaceOfFrame(a: string, m: string, b: string)
    requires AllSpace(a) && AllSpace(b)
    ensures NonSpace(a + m + b) == NonSpace(m)
  {
    NonSpaceConcat(a + m, b);
    NonSpaceConcat(a, m);
    NonSpaceOfSpace(a);
    NonSpaceOfSpace(b);
  }

  lemma {:induction false} NonSpaceOfCollapse(s: string)
    ensures NonSpace(CollapseSpace(s)) == NonSpace(s)
    decreases |s|
  {
    if s != [] {
      if IsSpace(s[0]) {
        var u := LStrip(s);
        NonSpaceOfCollapse(u);
        NonSpaceConcat(" ", CollapseSpace(u));
        assert s == s[..|s| - |u|] + u;
        NonSpaceConcat(s[..|s| - |u|], u);
        assert AllSpace(s[..|s| - |u|]);
        NonSpaceOfSpace(s[..|s| - |u|]);
      } else {
        NonSpaceOfCollapse(s[1..]);
        NonSpaceConcat([s[0]], CollapseSpace(s[1..]));
      }
    }
  }

  /** Cleaning keeps every non-whitespace character, in order, and adds
      none. */
  lemma CleanKeepsNonSpace(s: string)
    ensures NonSpace(CleanFilingText(s)) == NonSpace(s)
  {
    NonSpaceOfCollapse(s);
    NonSpaceOfStrip(CollapseSpace(s));
  }

  /** The result is empty exactly when the input is all whitespace. */
  lemma CleanEmptyIff(s: string)
    ensures CleanFilingText(s) == "" <==> AllSpace(s)
  {
    CleanKeepsNonSpace(s);
    if AllSpace(s) {
      NonSpaceOfSpace(s);
      CleanSpacing(s);
    } else {
      var i :| 0 <= i < |s| && !IsSpace(s[i]);
      assert s == s[..i] + s[i..];
      NonSpaceConcat(s[..i], s[i..]);
    }
  }

  // ---------------------------------------------------------------------
  // The file name and the template name

  /** url.split('/')[-1]: the part after the last '/', or the whole URL
      when it has none. */
  function FileName(url: string): (r: string)
    ensures '/' !in r
    ensures |r| <= |url| && url[|url| - |r|..] == r
    ensures |r| == |url| || url[|url| - |r| - 1] == '/'
  {
    LastPieceOnChar(url, '/');
    LastPiece(url, "/")
  }

  /** The label stored with a result. */
  function TemplateLabel(template: string): (r: string)
    ensures r == "Chain-of-Thought" <==> template == "cot.tpl"
    ensures r == "Chain-of-Thought" || r == "Zero-Shot"
  {
    if template == "cot.tpl" then "Chain-of-Thought" else "Zero-Shot"
  }

  /** The use_cot flag passed to classify_event. */
  function UsesCotPrompt(template: string): (r: bool)
    ensures r <==> template == "cot.tpl"
    ensures PromptName(r) == template <==> template in TemplateFiles
  {
    template == "cot.tpl"
  }

  datatype ValidatorKind = ZeroShotValidator | CotValidator

  /** Which validator checks the result: the test is on the zero-shot name,
      not on the CoT name the prompt choice tests. */
  function ChosenValidator(template: string): (v: ValidatorKind)
    ensures v == ZeroShotValidator <==> template == "zero_shot.tpl"
  {
    if template == "zero_shot.tpl" then ZeroShotValidator else CotValidator
  }

  function RunValidator(kind: ValidatorKind, parse: string -> Option<Json>, result: string, allowed: seq<string>): bool {
    match kind
    case ZeroShotValidator => ValidateZeroShot(parse, result, allowed)
    case CotValidator => ValidateCot(parse, result, allowed)
  }

  /** For the two known names prompt and validator agree; for any other
      name the zero-shot prompt is paired with the CoT validator. */
  lemma PromptAndValidatorPairing(template: string)
    ensures template == "cot.tpl" ==> UsesCotPrompt(template) && ChosenValidator(template) == CotValidator
    ensures template == "zero_shot.tpl" ==> !UsesCotPrompt(template) && ChosenValidator(template) == ZeroShotValidator
    ensures template != "cot.tpl" && template != "zero_shot.tpl" ==>
      !UsesCotPrompt(template) && ChosenValidator(template) == CotValidator
  {
  }

  /** The classification and validation a handler performs on the cleaned
      text of one filing. */
  function ClassifyAndValidate(env: Env, template: string, filingText: string, allowed: seq<string>): (r: Result<(string, bool), Error>)
    ensures r.Ok? ==> ClassifyEvent(env, filingText, allowed, UsesCotPrompt(template)) == Ok(r.value.0)
    ensures r.Ok? ==> r.value.1 == RunValidator(ChosenValidator(template), env.parse, r.value.0, allowed)
    ensures r.Err? ==> ClassifyEvent(env, filingText, allowed, UsesCotPrompt(template)) == Err(r.error)
  {
    var result :- ClassifyEvent(env, filingText, allowed, UsesCotPrompt(template));
    Ok((result, RunValidator(ChosenValidator(template), env.parse, result, allowed)))
  }

  /** With the zero-shot template, a reply that is a list of valid items is
      reported valid. */
  lemma ZeroShotListValidated(env: Env, filingText: string, allowed: seq<string>, reply: string, items: seq<Json>)
    requires DecodesEncoding(env.parse)
    requires ClassifyPrompt(env, filingText, allowed, false).Ok?
    requires RunLlama3(env.backend, ClassifyPrompt(env, filingText, allowed, false).value) == Ok(reply)
    requires env.parse(reply) == Some(Arr(items))
    requires forall i :: 0 <= i < |items| ==> ValidItem(items[i], allowed)
    ensures ClassifyAndValidate(env, "zero_shot.tpl", filingText, allowed) == Ok((Serialize(Arr(items)), true))
  {
    var out := Serialize(Arr(items));
    assert !UsesCotPrompt("zero_shot.tpl") && ChosenValidator("zero_shot.tpl") == ZeroShotValidator;
    DirectReplyAccepted(env, filingText, allowed, false, reply, Arr(items));
    assert env.parse(out) == Some(Arr(items));
    assert ValidateZeroShot(env.parse, out, allowed);
  }

  /** Under an unrecognised template name the same list answer is reported
      invalid: the CoT validator wants an object. */
  lemma UnknownTemplateRejectsList(env: Env, template: string, filingText: string, allowed: seq<string>, reply: string, items: seq<Json>)
    requires DecodesEncoding(env.parse)
    requires template != "cot.tpl" && template != "zero_shot.tpl"
    requires ClassifyPrompt(env, filingText, allowed, false).Ok?
    requires RunLlama3(env.backend, ClassifyPrompt(env, filingText, allowed, false).value) == Ok(reply)
    requires env.parse(reply) == Some(Arr(items))
    ensures ClassifyAndValidate(env, template, filingText, allowed) == Ok((Serialize(Arr(items)), false))
  {
    var out := Serialize(Arr(items));
    assert !UsesCotPrompt(template) && ChosenValidator(template) == CotValidator;
    DirectReplyAccepted(env, filingText, allowed, false, reply, Arr(items));
    assert env.parse(out) == Some(Arr(items));
    assert !ValidateCot(env.parse, out, allowed);
  }
}
