/** classify/build_prompt.py: a template with the placeholders {text} and
    {events} filled by two chained replace-all substitutions. The prompts
    directory is passed in as a function from file name to contents. */
module BuildPrompt {
  import opened Wrappers
  import opened Errors
  import opened PyStr
  import Classify

  const TextSlot := "{text}"
  const EventsSlot := "{events}"

  /** f'"{e}"': the label between double quotes, with nothing escaped. */
  function QuoteLabel(e: string): (r: string)
    ensures |r| == |e| + 2 && r[0] == '"' && r[|r| - 1] == '"' && r[1..|r| - 1] == e
  {
    "\"" + e + "\""
  }

  function QuotedLabels(events: seq<string>): (r: seq<string>)
    ensures |r| == |events| && forall i :: 0 <= i < |events| ==> r[i] == QuoteLabel(events[i])
  {
    seq(|events|, i requires 0 <= i < |events| => QuoteLabel(events[i]))
  }

  /** ', '.join of the quoted labels. */
  function EventsList(events: seq<string>): string {
    Join(", ", QuotedLabels(events))
  }

  /** The substitution itself: every {text} first, then every {events} of
      that intermediate string, including any that came in with the text. */
  function Fill(template: string, text: string, events: seq<string>): string {
    ReplaceAll(ReplaceAll(template, TextSlot, text), EventsSlot, EventsList(events))
  }

  /** A name that resolves to no file is an error, never a fallback. */
  function BuildPrompt(files: string -> Option<string>, name: string, text: string, events: seq<string>): (r: Result<string, Error>)
    ensures r == Err(TemplateFileMissing(name)) <==> files(name).None?
    ensures r.Ok? ==> r.value == Fill(files(name).value, text, events)
    ensures files(name).Some? ==> r == Ok(Fill(files(name).value, text, events))
  {
    match files(name)
    case None => Err(TemplateFileMissing(name))
    case Some(template) => Ok(Fill(template, text, events))
  }

  // ---------------------------------------------------------------------
  // The label list

  /** The list is empty exactly when there are no labels, so with no labels
      each {events} is deleted. */
  lemma EventsListEmptyIff(events: seq<string>)
    ensures EventsList(events) == "" <==> events == []
  {
    var q := QuotedLabels(events);
    if |events| == 1 {
      assert EventsList(events) == q[0];
    } else if |events| > 1 {
      assert |EventsList(events)| >= |q[0]|;
    }
  }

  /** The labels appear in the given order: one more label adds ", " and
      its quoted form at the end. */
  lemma EventsListAppend(events: seq<string>, e: string)
    requires events != []
    ensures EventsList(events + [e]) == EventsList(events) + ", " + QuoteLabel(e)
  {
    var q := QuotedLabels(events + [e]);
    JoinLast(", ", q);
    assert q[..|q| - 1] == QuotedLabels(events);
  }

  lemma EventsListHasLabel(events: seq<string>, i: nat)
    requires i < |events|
    ensures Contains(EventsList(events), QuoteLabel(events[i]))
  {
    JoinContainsPart(", ", QuotedLabels(events), i);
  }

  // ---------------------------------------------------------------------
  // Placeholders: a '{' followed by characters none of which is '{'

  predicate Placeholder(p: string) {
    |p| >= 2 && p[0] == '{' && forall i :: 1 <= i < |p| ==> p[i] != '{'
  }

  lemma SlotsArePlaceholders()
    ensures Placeholder(TextSlot) && Placeholder(EventsSlot) && TextSlot[1] != EventsSlot[1]
  {
  }

  /** No occurrence of a placeholder starts strictly inside the span just
      before a '{'. */
  lemma Unstraddled(s: string, p: string, c: nat)
    requires Placeholder(p) && c < |s| && s[c] == '{'
    ensures forall i :: 0 <= i && c - |p| < i < c ==> !OccursAt(s, p, i)
  {
    forall i | 0 <= i && c - |p| < i < c ensures !OccursAt(s, p, i) {
      if i + |p| <= |s| {
        assert s[i..i + |p|][c - i] == s[c];
      }
    }
  }

  /** Replacing around one occurrence of a placeholder: the parts on either
      side are replaced independently. */
  lemma ReplaceAtSlot(s: string, p: string, r: string, k: nat)
    requires Placeholder(p) && OccursAt(s, p, k)
    ensures ReplaceAll(s, p, r) == ReplaceAll(s[..k], p, r) + r + ReplaceAll(s[k + |p|..], p, r)
  {
    Unstraddled(s, p, k);
    assert s == s[..k] + s[k..];
    ReplaceConcat(s[..k], s[k..], p, r);
    assert p <= s[k..];
    assert s[k..][|p|..] == s[k + |p|..];
  }

  /** Replacing one placeholder keeps every occurrence of a different one. */
  lemma {:induction false} OtherSlotSurvives(s: string, p: string, q: string, r: string)
    requires Placeholder(p) && Placeholder(q) && p[1] != q[1]
    requires Contains(s, q)
    ensures Contains(ReplaceAll(s, p, r), q)
  {
    var k :| 0 <= k <= |s| - |q| && OccursAt(s, q, k);
    var w := s[k + |q|..];
    Unstraddled(s, p, k);
    assert s == s[..k] + s[k..];
    ReplaceConcat(s[..k], s[k..], p, r);
    assert s[k..] == q + w;
    NoOccurrenceInsideAfterBrace(q, w, p);
    ReplaceConcat(q, w, p, r);
    PlaceholderHoldsNoOther(q, p);
    ReplaceAbsent(q, p, r);
    ContainsSelf(q);
    ContainsInLeft(q, ReplaceAll(w, p, r), q);
    ContainsInRight(ReplaceAll(s[..k], p, r), q + ReplaceAll(w, p, r), q);
  }

  /** A placeholder holds no other placeholder. */
  lemma PlaceholderHoldsNoOther(q: string, p: string)
    requires Placeholder(p) && Placeholder(q) && p[1] != q[1]
    ensures !Contains(q, p)
  {
    forall j | 0 <= j <= |q| - |p| ensures !OccursAt(q, p, j) {
      assert q[j..j + |p|][0] == q[j];
      assert q[j..j + |p|][1] == q[j + 1];
    }
  }

  /** No occurrence of p starts after the '{' of a placeholder q and inside it. */
  lemma NoOccurrenceInsideAfterBrace(q: string, w: string, p: string)
    requires Placeholder(p) && Placeholder(q) && p[1] != q[1]
    ensures forall i :: 0 <= i && |q| - |p| < i < |q| ==> !OccursAt(q + w, p, i)
  {
    forall i | 0 <= i && |q| - |p| < i < |q| ensures !OccursAt(q + w, p, i) {
      if i + |p| <= |q + w| {
        assert (q + w)[i..i + |p|][0] == q[i];
        assert (q + w)[i..i + |p|][1] == (q + w)[i + 1];
      }
    }
  }

  // ---------------------------------------------------------------------
  // Properties of the filled prompt

  /** A template with {events} shows every label in quotes. */
  lemma QuotedLabelsInPrompt(template: string, text: string, events: seq<string>, i: nat)
    requires Contains(template, EventsSlot) && i < |events|
    ensures Contains(Fill(template, text, events), QuoteLabel(events[i]))
  {
    SlotsArePlaceholders();
    var m := ReplaceAll(template, TextSlot, text);
    OtherSlotSurvives(template, TextSlot, EventsSlot, text);
    ReplaceIntroduces(m, EventsSlot, EventsList(events));
    EventsListHasLabel(events, i);
    ContainsTransitive(Fill(template, text, events), EventsList(events), QuoteLabel(events[i]));
  }

  /** A template with neither placeholder comes back unchanged. */
  lemma NoSlotsUnchanged(template: string, text: string, events: seq<string>)
    requires !Contains(template, TextSlot) && !Contains(template, EventsSlot)
    ensures Fill(template, text, events) == template
  {
    ReplaceAbsent(template, TextSlot, text);
    ReplaceAbsent(template, EventsSlot, EventsList(events));
  }

  /** A "{events}" that arrives with the filing text is filled too: the
      label list then appears where the text was. */
  lemma EventsSlotInTextIsFilled(template: string, text: string, events: seq<string>)
    requires Contains(template, TextSlot) && Contains(text, EventsSlot)
    ensures Contains(Fill(template, text, events), EventsList(events))
  {
    ReplaceIntroduces(template, TextSlot, text);
    var m := ReplaceAll(template, TextSlot, text);
    ContainsTransitive(m, text, EventsSlot);
    ReplaceIntroduces(m, EventsSlot, EventsList(events));
  }

  /** Text that holds no '{' and does not start with a character of
      "events}" passes through the {events} substitution untouched. */
  lemma InsertedTextUntouched(a: string, text: string, b: string, l: string)
    requires text != [] && '{' !in text && text[0] !in "events}"
    ensures ReplaceAll(a + text + b, EventsSlot, l) ==
      ReplaceAll(a, EventsSlot, l) + text + ReplaceAll(b, EventsSlot, l)
  {
    assert a + text + b == a + (text + b);
    SeamBeforeNonSlotChar(a, text + b);
    ReplaceConcat(a, text + b, EventsSlot, l);
    BraceFreeSeam(text, b);
    ReplaceConcat(text, b, EventsSlot, l);
    BraceFreeHasNoSlot(text);
    ReplaceAbsent(text, EventsSlot, l);
    var x, y := ReplaceAll(a, EventsSlot, l), ReplaceAll(b, EventsSlot, l);
    assert x + (text + y) == x + text + y;
  }

  /** No "{events}" straddles a seam after which comes a character that
      cannot continue one. */
  lemma SeamBeforeNonSlotChar(a: string, rest: string)
    requires rest != [] && rest[0] !in "events}"
    ensures forall i :: 0 <= i && |a| - |EventsSlot| < i < |a| ==> !OccursAt(a + rest, EventsSlot, i)
  {
    var m := a + rest;
    forall i | 0 <= i && |a| - |EventsSlot| < i < |a| ensures !OccursAt(m, EventsSlot, i) {
      if i + |EventsSlot| <= |m| {
        assert m[i..i + |EventsSlot|][|a| - i] == m[|a|] == rest[0];
      }
    }
  }

  /** No "{events}" starts inside a string without '{'. */
  lemma BraceFreeSeam(u: string, v: string)
    requires '{' !in u
    ensures forall i :: 0 <= i && |u| - |EventsSlot| < i < |u| ==> !OccursAt(u + v, EventsSlot, i)
  {
    forall i | 0 <= i && |u| - |EventsSlot| < i < |u| ensures !OccursAt(u + v, EventsSlot, i) {
      assert u[i] in u;
      if i + |EventsSlot| <= |u + v| {
        assert (u + v)[i..i + |EventsSlot|][0] == u[i];
      }
    }
  }

  lemma BraceFreeHasNoSlot(u: string)
    requires '{' !in u
    ensures !Contains(u, EventsSlot)
  {
    forall j | 0 <= j <= |u| - |EventsSlot| ensures !OccursAt(u, EventsSlot, j) {
      assert u[j] in u;
      assert u[j..j + |EventsSlot|][0] == u[j];
    }
  }

  /** The filing text is kept verbatim when no {events} can be formed with
      it: it holds no '{', and its first character cannot continue a '{'
      left in the template just before {text}. */
  lemma TextKeptVerbatim(template: string, text: string, events: seq<string>)
    requires Contains(template, TextSlot)
    requires '{' !in text
    requires text == [] || text[0] !in "events}"
    ensures Contains(Fill(template, text, events), text)
  {
    if text == [] {
      assert OccursAt(Fill(template, text, events), text, 0);
    } else {
      SlotsArePlaceholders();
      var k :| 0 <= k <= |template| - |TextSlot| && OccursAt(template, TextSlot, k);
      ReplaceAtSlot(template, TextSlot, text, k);
      var a := ReplaceAll(template[..k], TextSlot, text);
      var b := ReplaceAll(template[k + |TextSlot|..], TextSlot, text);
      var l := EventsList(events);
      assert ReplaceAll(template, TextSlot, text) == a + text + b;
      InsertedTextUntouched(a, text, b, l);
      var x := ReplaceAll(a, EventsSlot, l);
      var y := ReplaceAll(b, EventsSlot, l);
      assert Fill(template, text, events) == x + text + y;
      assert OccursAt(x + text + y, text, |x|) by {
        assert (x + text + y)[|x|..|x| + |text|] == text;
      }
    }
  }

  /** Without those conditions the text can vanish even when it holds no
      "{events}": the template's "{even" and the text's "ts}" form one. */
  lemma TextCanBeSwallowed(template: string, text: string)
    requires template == "{even{text}" && text == "ts}"
    ensures !Contains(text, EventsSlot)
    ensures Fill(template, text, []) == ""
    ensures !Contains(Fill(template, text, []), text)
  {
    SlotsArePlaceholders();
    assert OccursAt(template, TextSlot, 5);
    ReplaceAtSlot(template, TextSlot, text, 5);
    ReplaceAbsent(template[..5], TextSlot, text);
    assert ReplaceAll(template, TextSlot, text) == EventsSlot;
    ReplaceAtSlot(EventsSlot, EventsSlot, "", 0);
    EventsListEmptyIff([]);
  }

  /** A label list replaces "{events}" inside the filing text itself. */
  lemma FilingTextIsRewritten(template: string, text: string, events: seq<string>)
    requires template == "{text}" && text == "a {events}" && events == ["X"]
    ensures Fill(template, text, events) == "a \"X\""
    ensures !Contains(Fill(template, text, events), text)
  {
    ReplaceWhole(TextSlot, text);
    var l := EventsList(events);
    assert l == "\"X\"" by {
      var q := QuotedLabels(events);
      assert |q| == 1 && q[0] == QuoteLabel("X") == "\"X\"";
      assert Join(", ", q) == q[0];
    }
    var t := text[1..];
    assert !(EventsSlot <= text) && t == " {events}";
    assert !(EventsSlot <= t) && t[1..] == EventsSlot;
    ReplaceWhole(EventsSlot, l);
    assert ReplaceAll(text, EventsSlot, l) == "a " + l;
  }

  /** A pattern replaced in itself leaves just the replacement. */
  lemma ReplaceWhole(p: string, r: string)
    requires |p| > 0
    ensures ReplaceAll(p, p, r) == r
  {
    assert p[|p|..] == [];
  }

  /** build_prompt and load_prompt read the same prompts directory: for
      either template variant, one reports the file missing exactly when
      the other does, and when it is there both start from its text. */
  lemma SameTemplateDirectory(env: Classify.Env, text: string, events: seq<string>, useCot: bool)
    ensures var name := Classify.PromptName(useCot);
      BuildPrompt(env.files, name, text, events) == Err(TemplateFileMissing(name))
      <==> Classify.ClassifyPrompt(env, text, events, useCot) == Err(TemplateFileMissing(name))
    ensures var name := Classify.PromptName(useCot);
      env.files(name).Some? ==>
        && BuildPrompt(env.files, name, text, events) == Ok(Fill(env.files(name).value, text, events))
        && Classify.ClassifyPrompt(env, text, events, useCot)
           == Classify.Format(env.pieces(env.files(name).value), text, Classify.LabelsJson(events))
  {
  }
}
