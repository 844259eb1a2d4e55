/** JSON values as Python's json module sees them, and json.dumps with its
    default settings (separators ", " and ": ", ensure_ascii escaping).
    json.loads is not defined here: the model takes it as a parameter
    `parse: string -> Option<Json>` (None standing for JSONDecodeError), and
    the two facts about it that the proofs rely on are the predicates
    DecodesEncoding and RejectsCutObjects below. */
module Json {
  import opened Wrappers

  /** A decoded JSON value. An object is its member list in insertion order,
      like the dict json.loads builds; floats are not modelled. */
  datatype Json =
    | Null
    | Bool(b: bool)
    | Num(n: int)
    | Str(s: string)
    | Arr(items: seq<Json>)
    | Obj(members: seq<Member>)

  datatype Member = Member(key: string, value: Json)

  /** `key in d` followed by `d[key]` on a decoded dict. */
  function Get(ms: seq<Member>, key: string): (r: Option<Json>)
    ensures r.Some? <==> exists i :: 0 <= i < |ms| && ms[i].key == key
    ensures r.Some? ==> exists i :: 0 <= i < |ms| && ms[i].key == key && ms[i].value == r.value
  {
    if ms == [] then None
    else if ms[0].key == key then Some(ms[0].value)
    else
      var r := Get(ms[1..], key);
      assert r.Some? ==> exists i :: 0 <= i < |ms| - 1 && ms[1..][i].key == key && ms[1..][i].value == r.value;
      r
  }

  // ---------------------------------------------------------------------
  // json.dumps

  function Serialize(j: Json): string
    decreases j, 1
  {
    match j
    case Null => "null"
    case Bool(b) => if b then "true" else "false"
    case Num(n) => IntText(n)
    case Str(s) => Quote(s)
    case Arr(items) => "[" + Items(items, j) + "]"
    case Obj(ms) => "{" + Members(ms, j) + "}"
  }

  /** The elements of an array, separated by ", ". */
  function Items(items: seq<Json>, ghost parent: Json): string
    requires forall i :: 0 <= i < |items| ==> items[i] < parent
    decreases parent, 0, |items|
  {
    if items == [] then ""
    else if |items| == 1 then Serialize(items[0])
    else Serialize(items[0]) + ", " + Items(items[1..], parent)
  }

  /** The members of an object, each `"key": value`, separated by ", ". */
  function Members(ms: seq<Member>, ghost parent: Json): string
    requires forall i :: 0 <= i < |ms| ==> ms[i].value < parent
    decreases parent, 0, |ms|
  {
    if ms == [] then ""
    else
      var head := Quote(ms[0].key) + ": " + Serialize(ms[0].value);
      if |ms| == 1 then head else head + ", " + Members(ms[1..], parent)
  }

  function Quote(s: string): string {
    "\"" + Escape(s) + "\""
  }

  function Escape(s: string): string {
    if s == [] then "" else EscapeChar(s[0]) + Escape(s[1..])
  }

  /** The escaping of json.dumps with ensure_ascii: quote, backslash and the
      five named control characters get a short escape, everything else
      outside ' '..'~' becomes \uXXXX (a surrogate pair above U+FFFF). */
  function EscapeChar(c: char): string {
    if c == '"' then "\\\""
    else if c == '\\' then "\\\\"
    else if c == '\n' then "\\n"
    else if c == '\r' then "\\r"
    else if c == '\t' then "\\t"
    else if c == '\U{8}' then "\\b"
    else if c == '\U{C}' then "\\f"
    else if ' ' <= c <= '~' then [c]
    else UnicodeEscape(c)
  }

  function UnicodeEscape(c: char): string {
    if (c as int) < 0x1_0000 then "\\u" + Hex4(c as int)
    else SurrogatePair(c as int - 0x1_0000)
  }

  /** The UTF-16 surrogate pair of a code point above U+FFFF, less 0x10000. */
  function SurrogatePair(v: nat): string
    requires v < 0x10_0000
  {
    "\\u" + Hex4(0xD800 + v / 0x400) + "\\u" + Hex4(0xDC00 + v % 0x400)
  }

  function HexDigit(d: nat): char
    requires d < 16
  {
    "0123456789abcdef"[d]
  }

  function Hex4(n: nat): string
    requires n < 0x1_0000
  {
    [HexDigit(n / 0x1000), HexDigit(n / 0x100 % 16), HexDigit(n / 0x10 % 16), HexDigit(n % 16)]
  }

  function IntText(n: int): string {
    if n < 0 then "-" + NatText(-n) else NatText(n)
  }

  function NatText(n: nat): string
    decreases n
  {
    if n < 10 then ["0123456789"[n]] else NatText(n / 10) + ["0123456789"[n % 10]]
  }

  // ---------------------------------------------------------------------
  // Where brackets can appear in serialized text

  /** A value holding no array and no ']' in any string or key: its text
      holds no ']' (FlatHasNoCloseBracket). Items such as
      {"Event Type": "Other", "Relevant": false} are flat. */
  predicate Flat(j: Json)
    decreases j
  {
    match j
    case Arr(_) => false
    case Str(s) => ']' !in s
    case Obj(ms) => forall i :: 0 <= i < |ms| ==> ']' !in ms[i].key && Flat(ms[i].value)
    case _ => true
  }

  lemma HexHasNoBracket(n: nat)
    requires n < 0x1_0000
    ensures ']' !in Hex4(n)
  {
    forall d: nat | d < 16 ensures HexDigit(d) != ']' {
      assert HexDigit(d) in "0123456789abcdef";
    }
  }

  lemma EscapeCharKeepsBracketOut(c: char)
    requires c != ']'
    ensures ']' !in EscapeChar(c)
  {
    if c == '"' || c == '\\' || c == '\n' || c == '\r' || c == '\t' || c == '\U{8}' || c == '\U{C}' {
    } else if ' ' <= c <= '~' {
      assert EscapeChar(c) == [c];
    } else {
      assert EscapeChar(c) == UnicodeEscape(c);
      UnicodeEscapeHasNoBracket(c);
    }
  }

  lemma UnicodeEscapeHasNoBracket(c: char)
    ensures ']' !in UnicodeEscape(c)
  {
    if (c as int) < 0x1_0000 {
      HexHasNoBracket(c as int);
    } else {
      SurrogatePairHasNoBracket(c as int - 0x1_0000);
    }
  }

  lemma SurrogatePairHasNoBracket(v: nat)
    requires v < 0x10_0000
    ensures ']' !in SurrogatePair(v)
  {
    var hi, lo := SurrogateHalves(v);
    PairHasNoBracket(hi, lo);
  }

  /** The two halves of a surrogate pair, each a 16-bit code unit. */
  lemma SurrogateHalves(v: int) returns (hi: nat, lo: nat)
    requires 0 <= v < 0x10_0000
    ensures hi == 0xD800 + v / 0x400 && lo == 0xDC00 + v % 0x400
    ensures hi < 0x1_0000 && lo < 0x1_0000
  {
    hi, lo := 0xD800 + v / 0x400, 0xDC00 + v % 0x400;
  }

  lemma PairHasNoBracket(hi: nat, lo: nat)
    requires hi < 0x1_0000 && lo < 0x1_0000
    ensures ']' !in "\\u" + Hex4(hi) + "\\u" + Hex4(lo)
  {
    HexHasNoBracket(hi);
    HexHasNoBracket(lo);
    assert "\\u" + Hex4(hi) + "\\u" + Hex4(lo) == "\\u" + Hex4(hi) + ("\\u" + Hex4(lo));
  }

  lemma {:induction false} EscapeKeepsBracketOut(s: string)
    requires ']' !in s
    ensures ']' !in Escape(s)
  {
    if s != [] {
      assert s[0] in s;
      EscapeCharKeepsBracketOut(s[0]);
      EscapeKeepsBracketOut(s[1..]);
    }
  }

  lemma {:induction false} NatTextIsDigits(n: nat)
    ensures forall c :: c in NatText(n) ==> '0' <= c <= '9'
    decreases n
  {
    if n >= 10 {
      NatTextIsDigits(n / 10);
    }
  }

  lemma {:induction false} FlatHasNoCloseBracket(j: Json)
    requires Flat(j)
    ensures ']' !in Serialize(j)
    decreases j, 1
  {
    match j
    case Num(n) =>
      NatTextIsDigits(if n < 0 then -n else n);
    case Str(s) =>
      EscapeKeepsBracketOut(s);
    case Obj(ms) =>
      MembersHaveNoCloseBracket(ms, j);
    case _ =>
  }

  lemma {:induction false} MembersHaveNoCloseBracket(ms: seq<Member>, parent: Json)
    requires forall i :: 0 <= i < |ms| ==> ms[i].value < parent
    requires forall i :: 0 <= i < |ms| ==> ']' !in ms[i].key && Flat(ms[i].value)
    ensures ']' !in Members(ms, parent)
    decreases parent, 0, |ms|
  {
    if ms != [] {
      EscapeKeepsBracketOut(ms[0].key);
      FlatHasNoCloseBracket(ms[0].value);
      MembersHaveNoCloseBracket(ms[1..], parent);
    }
  }

  /** A flat list serializes as '[' + body + ']' with no ']' in the body. */
  lemma FlatListShape(items: seq<Json>)
    requires forall i :: 0 <= i < |items| ==> Flat(items[i])
    ensures var t := Serialize(Arr(items));
      |t| >= 2 && t[0] == '[' && t[|t| - 1] == ']' && ']' !in t[1..|t| - 1]
  {
    ItemsHaveNoCloseBracket(items, Arr(items));
    var t := Serialize(Arr(items));
    assert t[1..|t| - 1] == Items(items, Arr(items));
  }

  lemma {:induction false} ItemsHaveNoCloseBracket(items: seq<Json>, parent: Json)
    requires forall i :: 0 <= i < |items| ==> items[i] < parent && Flat(items[i])
    ensures ']' !in Items(items, parent)
    decreases |items|
  {
    if items != [] {
      FlatHasNoCloseBracket(items[0]);
      ItemsHaveNoCloseBracket(items[1..], parent);
    }
  }

  /** Every character of a member's value appears inside the object text. */
  lemma {:induction false} MemberCharsInMembers(ms: seq<Member>, parent: Json, k: nat, c: char)
    requires forall i :: 0 <= i < |ms| ==> ms[i].value < parent
    requires k < |ms| && c in Serialize(ms[k].value)
    ensures c in Members(ms, parent)
    decreases |ms|
  {
    if k > 0 {
      MemberCharsInMembers(ms[1..], parent, k - 1, c);
    }
  }

  /** Every character of an element appears inside the array text. */
  lemma {:induction false} ItemCharsInItems(items: seq<Json>, parent: Json, k: nat, c: char)
    requires forall i :: 0 <= i < |items| ==> items[i] < parent
    requires k < |items| && c in Serialize(items[k])
    ensures c in Items(items, parent)
    decreases |items|
  {
    if k > 0 {
      ItemCharsInItems(items[1..], parent, k - 1, c);
    }
  }

  /** An object one of whose members is a list starting with an object
      (the shape of a reasoning-style answer with at least one event) has a
      '}' strictly inside its text, before its own closing brace. */
  lemma InnerCloseBrace(ms: seq<Member>, key: string, items: seq<Json>)
    requires Get(ms, key) == Some(Arr(items))
    requires |items| > 0 && items[0].Obj?
    ensures var t := Serialize(Obj(ms));
      |t| >= 2 && t[0] == '{' && t[|t| - 1] == '}' && '}' in t[1..|t| - 1]
  {
    var ev := Arr(items);
    var first := Serialize(items[0]);
    assert first[|first| - 1] == '}';
    ItemCharsInItems(items, ev, 0, '}');
    var k :| 0 <= k < |ms| && ms[k].key == key && ms[k].value == ev;
    assert Serialize(ev)[1..][|Items(items, ev)| - 1 + 1 - 1] in Serialize(ev);
    assert '}' in Serialize(ev) by {
      assert Serialize(ev) == "[" + Items(items, ev) + "]";
    }
    MemberCharsInMembers(ms, Obj(ms), k, '}');
    var t := Serialize(Obj(ms));
    assert t[1..|t| - 1] == Members(ms, Obj(ms));
  }

  // ---------------------------------------------------------------------
  // What the model assumes of json.loads

  /** json.loads reads back exactly what json.dumps wrote. */
  ghost predicate DecodesEncoding(parse: string -> Option<Json>) {
    forall j :: parse(Serialize(j)) == Some(j)
  }

  /** A JSON text that begins an object but stops before that object's
      closing brace is not valid JSON. */
  ghost predicate RejectsCutObjects(parse: string -> Option<Json>) {
    forall ms: seq<Member>, n: nat :: 0 < n < |Serialize(Obj(ms))| ==> parse(Serialize(Obj(ms))[..n]) == None
  }
}
