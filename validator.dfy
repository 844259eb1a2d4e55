/** classify/validator.py: the JSON-block extractor and the two schema
    validators, which share one rule for a single classification item. */
module Validator {
  import opened Wrappers
  import opened Errors
  import opened Json

  // ---------------------------------------------------------------------
  // extract_json_block: re.search(r'(\[.*?\]|\{.*?\})', text, re.DOTALL)

  predicate IsOpener(c: char) {
    c == '[' || c == '{'
  }

  function CloserOf(c: char): char {
    if c == '[' then ']' else '}'
  }

  /** One of the two alternatives of the pattern can match at i: an opener
      with a later closer of its own family. Any character, newlines
      included, may stand in between (DOTALL). */
  predicate MatchAt(s: string, i: int)
    requires 0 <= i < |s|
  {
    IsOpener(s[i]) && CloserOf(s[i]) in s[i + 1..]
  }

  /** The lazy `.*?`: the first position at or after `from` holding c. */
  function FirstFrom(s: string, c: char, from: nat): (r: Option<nat>)
    requires from <= |s|
    ensures r.None? ==> c !in s[from..]
    ensures r.Some? ==> from <= r.value < |s| && s[r.value] == c && c !in s[from..r.value]
    decreases |s| - from
  {
    if from == |s| then None
    else if s[from] == c then Some(from)
    else
      var r := FirstFrom(s, c, from + 1);
      assert s[from..] == [s[from]] + s[from + 1..];
      assert r.Some? ==> s[from..r.value] == [s[from]] + s[from + 1..r.value];
      r
  }

  /** re.search from position `from`: the leftmost start at which the
      pattern matches, with the end of the shortest match there. */
  function Search(s: string, from: nat): (r: Option<(nat, nat)>)
    requires from <= |s|
    ensures r.None? ==> forall i :: from <= i < |s| ==> !MatchAt(s, i)
    ensures r.Some? ==>
      var (i, j) := r.value;
      && from <= i < j < |s|
      && MatchAt(s, i)
      && (forall k :: from <= k < i ==> !MatchAt(s, k))
      && s[j] == CloserOf(s[i])
      && CloserOf(s[i]) !in s[i + 1..j]
    decreases |s| - from
  {
    if from == |s| then None
    else if IsOpener(s[from]) && FirstFrom(s, CloserOf(s[from]), from + 1).Some? then
      Some((from, FirstFrom(s, CloserOf(s[from]), from + 1).value))
    else
      Search(s, from + 1)
  }

  /** The returned block starts with an opener, ends with the closer of the
      same family, and holds no other closer of that family in between:
      there is no depth counting. It fails exactly when no opener has a
      later closer of its own family. */
  function ExtractJsonBlock(text: string): (r: Result<string, Error>)
    ensures r.Err? <==> forall i :: 0 <= i < |text| ==> !MatchAt(text, i)
    ensures r.Err? ==> r.error == NoJsonFound
    ensures r.Ok? ==>
      var b := r.value;
      && |b| >= 2 && IsOpener(b[0]) && b[|b| - 1] == CloserOf(b[0])
      && CloserOf(b[0]) !in b[1..|b| - 1]
  {
    match Search(text, 0)
    case None => Err(NoJsonFound)
    case Some((i, j)) =>
      SpanShape(text, i, j);
      Ok(text[i..j + 1])
  }

  lemma SpanShape(text: string, i: nat, j: nat)
    requires i < j < |text| && IsOpener(text[i]) && text[j] == CloserOf(text[i])
    requires CloserOf(text[i]) !in text[i + 1..j]
    ensures var b := text[i..j + 1];
      && |b| >= 2 && IsOpener(b[0]) && b[|b| - 1] == CloserOf(b[0])
      && CloserOf(b[0]) !in b[1..|b| - 1]
  {
    var b := text[i..j + 1];
    var inner, mid := b[1..|b| - 1], text[i + 1..j];
    assert |inner| == |mid|;
    forall k | 0 <= k < |inner| ensures inner[k] == mid[k] {
      assert b[1 + k] == text[i + 1 + k];
    }
    assert inner == mid;
  }

  /** The block is text[i..j+1] where i is the leftmost position at which an
      opener has a later same-family closer, and j the first such closer. */
  lemma ExtractedSpan(text: string) returns (i: nat, j: nat)
    requires ExtractJsonBlock(text).Ok?
    ensures i < j < |text| && ExtractJsonBlock(text).value == text[i..j + 1]
    ensures MatchAt(text, i) && forall k :: 0 <= k < i ==> !MatchAt(text, k)
    ensures text[j] == CloserOf(text[i]) && CloserOf(text[i]) !in text[i + 1..j]
  {
    i, j := Search(text, 0).value.0, Search(text, 0).value.1;
  }

  /** Conversely, any span meeting that description is what is returned. */
  lemma {:induction false} ExtractionDeterminedBy(text: string, i: nat, j: nat)
    requires i < j < |text|
    requires MatchAt(text, i) && forall k :: 0 <= k < i ==> !MatchAt(text, k)
    requires text[j] == CloserOf(text[i]) && CloserOf(text[i]) !in text[i + 1..j]
    ensures ExtractJsonBlock(text) == Ok(text[i..j + 1])
  {
    var i', j' := ExtractedSpan(text);
    assert i' == i;
    assert j' == j;
  }

  /** When no opener comes before position i, the block starts at i if a
      closer of its family follows, and ends no later than that closer. */
  lemma BlockEndsByCloser(text: string, i: nat, c: nat) returns (j: nat)
    requires i < c < |text| && IsOpener(text[i]) && text[c] == CloserOf(text[i])
    requires forall k :: 0 <= k < i ==> !IsOpener(text[k])
    ensures i < j <= c && ExtractJsonBlock(text) == Ok(text[i..j + 1])
  {
    assert text[i + 1..][c - i - 1] == text[c];
    assert MatchAt(text, i);
    var i';
    i', j := ExtractedSpan(text);
    assert i' == i;
  }

  /** Applying the extractor to its own output returns that output. */
  lemma ExtractIdempotent(text: string)
    requires ExtractJsonBlock(text).Ok?
    ensures ExtractJsonBlock(ExtractJsonBlock(text).value) == ExtractJsonBlock(text)
  {
    var b := ExtractJsonBlock(text).value;
    var n := |b| - 1;
    assert b[1..][n - 1] == b[n];
    assert MatchAt(b, 0);
    assert b[1..n] == b[0 + 1..n];
    ExtractionDeterminedBy(b, 0, n);
    assert b[0..n + 1] == b;
  }

  /** A reply of plain prose yields the error. */
  lemma NoBracketsNoBlock(text: string)
    requires '[' !in text && '{' !in text
    ensures ExtractJsonBlock(text) == Err(NoJsonFound)
  {
    forall i | 0 <= i < |text| ensures !MatchAt(text, i) {
      assert text[i] in text;
    }
  }

  /** Nested input is truncated at the first inner closer. */
  lemma NestedInputIsTruncated(s: string)
    requires s == "[{\"a\": [1]}]"
    ensures ExtractJsonBlock(s) == Ok("[{\"a\": [1]")
  {
    assert s[1..][8] == ']';
    assert MatchAt(s, 0);
    assert ']' !in s[1..9] by {
      assert s[1..9] == "{\"a\": [1";
    }
    ExtractionDeterminedBy(s, 0, 9);
    assert s[0..10] == "[{\"a\": [1]";
  }

  /** An opener with no later closer of its own family is skipped. */
  lemma UnclosedOpenerIsSkipped(s: string)
    requires s == "[ {x}"
    ensures ExtractJsonBlock(s) == Ok("{x}")
  {
    var t := s[1..];
    assert t == [' ', '{', 'x', '}'];
    assert ']' !in t by {
      forall k | 0 <= k < |t| ensures t[k] != ']' {
        assert t[k] in [' ', '{', 'x', '}'];
      }
    }
    assert s[3..][1] == '}';
    assert s[3..4] == "x";
    forall k | 0 <= k < 2 ensures !MatchAt(s, k) {
      if k == 0 {
        assert s[k + 1..] == t;
      }
    }
    ExtractionDeterminedBy(s, 2, 4);
    assert s[2..5] == "{x}";
  }

  // ---------------------------------------------------------------------
  // The item rule shared by validate_zero_shot and validate_cot

  /** An object carrying both keys, whose "Event Type" is one of the allowed
      labels and whose "Relevant" is a JSON boolean (not "true" or 1).
      Any other key is ignored. */
  predicate ValidItem(item: Json, allowed: seq<string>) {
    && item.Obj?
    && Get(item.members, "Event Type").Some?
    && Get(item.members, "Relevant").Some?
    && Get(item.members, "Event Type").value.Str?
    && Get(item.members, "Event Type").value.s in allowed
    && Get(item.members, "Relevant").value.Bool?
  }

  /** The `for event in ...` loop: False at the first item that breaks the
      rule, True when none does. */
  function AllItemsValid(items: seq<Json>, allowed: seq<string>): (r: bool)
    ensures r <==> forall i :: 0 <= i < |items| ==> ValidItem(items[i], allowed)
  {
    if items == [] then true
    else if !ValidItem(items[0], allowed) then false
    else
      assert forall i :: 1 <= i < |items| ==> items[i] == items[1..][i - 1];
      AllItemsValid(items[1..], allowed)
  }

  /** validate_zero_shot: the text parses to a list every element of
      which satisfies the item rule. Text that does not parse gives false. */
  function ValidateZeroShot(parse: string -> Option<Json>, result: string, allowed: seq<string>): (r: bool)
    ensures r <==>
      && parse(result).Some?
      && parse(result).value.Arr?
      && forall i :: 0 <= i < |parse(result).value.items| ==> ValidItem(parse(result).value.items[i], allowed)
  {
    match parse(result)
    case None => false
    case Some(v) => v.Arr? && AllItemsValid(v.items, allowed)
  }

  /** validate_cot: the text parses to an object holding both "Events" and
      "Reasoning" (whose content is not looked at), "Events" being a list
      every element of which satisfies the item rule. */
  function ValidateCot(parse: string -> Option<Json>, result: string, allowed: seq<string>): (r: bool)
    ensures r <==>
      && parse(result).Some?
      && parse(result).value.Obj?
      && Get(parse(result).value.members, "Events").Some?
      && Get(parse(result).value.members, "Reasoning").Some?
      && Get(parse(result).value.members, "Events").value.Arr?
      && forall i :: 0 <= i < |Get(parse(result).value.members, "Events").value.items| ==>
           ValidItem(Get(parse(result).value.members, "Events").value.items[i], allowed)
  {
    match parse(result)
    case None => false
    case Some(v) =>
      if !v.Obj? then false
      else if Get(v.members, "Events").None? then false
      else if Get(v.members, "Reasoning").None? then false
      else
        var events := Get(v.members, "Events").value;
        events.Arr? && AllItemsValid(events.items, allowed)
  }

  /** No text passes both validators: the two answer shapes never coincide. */
  lemma ValidatorsExclusive(parse: string -> Option<Json>, result: string, allowed: seq<string>)
    ensures !(ValidateZeroShot(parse, result, allowed) && ValidateCot(parse, result, allowed))
  {
  }

  /** The empty list is a valid direct answer whatever the taxonomy. */
  lemma EmptyListIsValid(parse: string -> Option<Json>, result: string, allowed: seq<string>)
    requires parse(result) == Some(Arr([]))
    ensures ValidateZeroShot(parse, result, allowed)
  {
  }

  /** The item rule on the cases exercised by the repository's tests:
      extra keys pass; an unknown label, a missing key, or the string
      "true" in place of a boolean fail. */
  lemma ItemRuleExamples()
    ensures var allowed := ["Acquisition", "Other"];
      && ValidItem(Obj([Member("Event Type", Str("Acquisition")), Member("Relevant", Bool(true)),
                        Member("extra", Num(123))]), allowed)
      && !ValidItem(Obj([Member("Event Type", Str("Merger")), Member("Relevant", Bool(true))]), allowed)
      && !ValidItem(Obj([Member("Relevant", Bool(true))]), allowed)
      && !ValidItem(Obj([Member("Event Type", Str("Acquisition"))]), allowed)
      && !ValidItem(Obj([Member("Event Type", Str("Acquisition")), Member("Relevant", Str("true"))]), allowed)
  {
    var et, rel := Member("Event Type", Str("Acquisition")), Member("Relevant", Bool(true));
    assert "Event Type" != "Relevant" && "Event Type" != "extra" && "Relevant" != "extra";
    assert Get([et, rel, Member("extra", Num(123))], "Relevant") == Some(Bool(true));
    assert "Merger" !in ["Acquisition", "Other"];
    assert Get([rel], "Event Type") == None;
    assert Get([et], "Relevant") == None;
    assert Get([et, Member("Relevant", Str("true"))], "Relevant") == Some(Str("true"));
  }
}
