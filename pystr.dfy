/** The Python string builtins the core relies on: str.isspace, str.strip,
    str.replace, str.split and str.join, with the facts about them that the
    other modules use. */
module PyStr {

  /** str.isspace on one character: the characters Python treats as
      whitespace (also what the regex class \s matches in a str pattern). */
  predicate IsSpace(c: char) {
    || '\t' <= c <= '\r'
    || '\U{1C}' <= c <= ' '
    || c == '\U{85}' || c == '\U{A0}' || c == '\U{1680}'
    || '\U{2000}' <= c <= '\U{200A}'
    || c == '\U{2028}' || c == '\U{2029}' || c == '\U{202F}' || c == '\U{205F}' || c == '\U{3000}'
  }

  // ---------------------------------------------------------------------
  // str.strip()

  /** str.lstrip(): drops the leading whitespace, keeps the rest. */
  function LStrip(s: string): (r: string)
    ensures |r| <= |s| && r == s[|s| - |r|..]
    ensures r == [] || !IsSpace(r[0])
    ensures forall i :: 0 <= i < |s| - |r| ==> IsSpace(s[i])
  {
    if s != [] && IsSpace(s[0]) then LStrip(s[1..]) else s
  }

  /** str.rstrip(): drops the trailing whitespace, keeps the rest. */
  function RStrip(s: string): (r: string)
    ensures |r| <= |s| && r == s[..|r|]
    ensures r == [] || !IsSpace(r[|r| - 1])
    ensures forall i :: |r| <= i < |s| ==> IsSpace(s[i])
  {
    if s != [] && IsSpace(s[|s| - 1]) then RStrip(s[..|s| - 1]) else s
  }

  function Strip(s: string): string {
    RStrip(LStrip(s))
  }

  predicate AllSpace(t: string) {
    forall i :: 0 <= i < |t| ==> IsSpace(t[i])
  }

  /** strip() leaves no whitespace at either end and removes only whitespace:
      the input is the result framed by two all-whitespace strings, the first
      of length k. */
  lemma StripShape(s: string) returns (k: nat)
    ensures var r := Strip(s);
      && (r == [] || (!IsSpace(r[0]) && !IsSpace(r[|r| - 1])))
      && k + |r| <= |s| && s == s[..k] + r + s[k + |r|..]
      && AllSpace(s[..k]) && AllSpace(s[k + |r|..])
  {
    var l := LStrip(s);
    var r := RStrip(l);
    k := |s| - |l|;
    LStripFrame(s);
    RStripFrame(l);
    Regroup(s, s[..k], l, r, l[|r|..]);
  }

  /** s == a + (r + t), regrouped, with its pieces located. */
  lemma Regroup(s: string, a: string, l: string, r: string, t: string)
    requires s == a + l && l == r + t
    ensures s == a + r + t && |a| + |r| <= |s| && s[..|a|] == a && s[|a| + |r|..] == t
  {
    assert a + (r + t) == a + r + t;
    assert s[|a| + |r|..] == t;
  }

  lemma LStripFrame(s: string)
    ensures s == s[..|s| - |LStrip(s)|] + LStrip(s)
    ensures AllSpace(s[..|s| - |LStrip(s)|])
  {
    var k := |s| - |LStrip(s)|;
    assert s == s[..k] + s[k..];
    forall i | 0 <= i < k ensures IsSpace(s[..k][i]) {
      assert s[..k][i] == s[i];
    }
  }

  lemma RStripFrame(l: string)
    ensures l == RStrip(l) + l[|RStrip(l)|..]
    ensures AllSpace(l[|RStrip(l)|..])
  {
    var n := |RStrip(l)|;
    assert l == l[..n] + l[n..];
    forall i | 0 <= i < |l| - n ensures IsSpace(l[n..][i]) {
      assert l[n..][i] == l[n + i];
    }
  }

  lemma StripIdempotent(s: string)
    ensures Strip(Strip(s)) == Strip(s)
  {
    var r := Strip(s);
    var _ := StripShape(s);
    if r != [] {
      assert LStrip(r) == r;
      assert RStrip(r) == r;
    }
  }

  // ---------------------------------------------------------------------
  // Occurrences of a substring

  predicate OccursAt(s: string, p: string, k: int) {
    0 <= k && k + |p| <= |s| && s[k..k + |p|] == p
  }

  /** Python's `p in s`. */
  predicate Contains(s: string, p: string) {
    exists k :: 0 <= k <= |s| - |p| && OccursAt(s, p, k)
  }

  lemma OccursShift(s: string, p: string, i: nat, d: nat)
    requires d <= |s|
    ensures OccursAt(s[d..], p, i) <==> OccursAt(s, p, i + d)
  {
    if 0 <= i && i + |p| <= |s| - d {
      assert s[d..][i..i + |p|] == s[i + d..i + d + |p|];
    }
  }

  lemma ContainsInLeft(x: string, y: string, p: string)
    requires Contains(x, p)
    ensures Contains(x + y, p)
  {
    var k :| 0 <= k <= |x| - |p| && OccursAt(x, p, k);
    assert (x + y)[k..k + |p|] == x[k..k + |p|];
    assert OccursAt(x + y, p, k);
  }

  lemma ContainsInRight(x: string, y: string, p: string)
    requires Contains(y, p)
    ensures Contains(x + y, p)
  {
    var k :| 0 <= k <= |y| - |p| && OccursAt(y, p, k);
    assert (x + y)[|x| + k..|x| + k + |p|] == y[k..k + |p|];
    assert OccursAt(x + y, p, |x| + k);
  }

  lemma ContainsTransitive(s: string, m: string, p: string)
    requires Contains(s, m) && Contains(m, p)
    ensures Contains(s, p)
  {
    var k :| 0 <= k <= |s| - |m| && OccursAt(s, m, k);
    var j :| 0 <= j <= |m| - |p| && OccursAt(m, p, j);
    assert s[k..k + |m|] == m;
    forall t | 0 <= t < |p| ensures s[k + j..k + j + |p|][t] == p[t] {
      assert s[k + j + t] == m[j + t];
      assert m[j..j + |p|][t] == m[j + t];
    }
    assert OccursAt(s, p, k + j);
  }

  lemma ContainsSelf(s: string)
    ensures Contains(s, s)
  {
    assert OccursAt(s, s, 0);
  }

  // ---------------------------------------------------------------------
  // str.replace(p, r) for a non-empty p

  /** Every occurrence of p, scanning left to right without overlap, is
      replaced by r. */
  function ReplaceAll(s: string, p: string, r: string): string
    requires |p| > 0
    decreases |s|
  {
    if s == [] then []
    else if p <= s then r + ReplaceAll(s[|p|..], p, r)
    else [s[0]] + ReplaceAll(s[1..], p, r)
  }

  /** A string with no occurrence of p is left unchanged. */
  lemma {:induction false} ReplaceAbsent(s: string, p: string, r: string)
    requires |p| > 0 && !Contains(s, p)
    ensures ReplaceAll(s, p, r) == s
    decreases |s|
  {
    if s != [] {
      assert !OccursAt(s, p, 0);
      forall k: nat ensures !OccursAt(s[1..], p, k) {
        OccursShift(s, p, k, 1);
      }
      ReplaceAbsent(s[1..], p, r);
    }
  }

  /** When p occurs at all, the replacement text occurs in the result. */
  lemma {:induction false} ReplaceIntroduces(s: string, p: string, r: string)
    requires |p| > 0 && Contains(s, p)
    ensures Contains(ReplaceAll(s, p, r), r)
    decreases |s|
  {
    var k :| 0 <= k <= |s| - |p| && OccursAt(s, p, k);
    if p <= s {
      ContainsSelf(r);
      ContainsInLeft(r, ReplaceAll(s[|p|..], p, r), r);
    } else {
      assert k != 0;
      OccursShift(s, p, k - 1, 1);
      ReplaceIntroduces(s[1..], p, r);
      ContainsInRight([s[0]], ReplaceAll(s[1..], p, r), r);
    }
  }

  /** Replacement distributes over a concatenation when no occurrence of p
      straddles the seam. */
  lemma {:induction false} ReplaceConcat(u: string, v: string, p: string, r: string)
    requires |p| > 0
    requires forall i :: 0 <= i && |u| - |p| < i < |u| ==> !OccursAt(u + v, p, i)
    ensures ReplaceAll(u + v, p, r) == ReplaceAll(u, p, r) + ReplaceAll(v, p, r)
    decreases |u|
  {
    if u == [] {
      assert u + v == v;
    } else if p <= u {
      var u' := u[|p|..];
      assert (u + v)[|p|..] == u' + v;
      assert (u + v)[..|p|] == u[..|p|];
      forall i | 0 <= i && |u'| - |p| < i < |u'|
        ensures !OccursAt(u' + v, p, i)
      {
        OccursShift(u + v, p, i, |p|);
      }
      ReplaceConcat(u', v, p, r);
      var a, b := ReplaceAll(u', p, r), ReplaceAll(v, p, r);
      assert p <= u + v;
      assert ReplaceAll(u + v, p, r) == r + (a + b);
      assert r + (a + b) == (r + a) + b;
    } else {
      assert !(p <= u + v) by {
        if |u| >= |p| {
          assert (u + v)[..|p|] == u[..|p|];
        } else {
          assert !OccursAt(u + v, p, 0);
        }
      }
      assert (u + v)[1..] == u[1..] + v;
      forall i | 0 <= i && |u[1..]| - |p| < i < |u[1..]|
        ensures !OccursAt(u[1..] + v, p, i)
      {
        OccursShift(u + v, p, i, 1);
      }
      ReplaceConcat(u[1..], v, p, r);
      var a, b := ReplaceAll(u[1..], p, r), ReplaceAll(v, p, r);
      assert (u + v)[0] == u[0];
      assert ReplaceAll(u + v, p, r) == [u[0]] + (a + b);
      assert [u[0]] + (a + b) == ([u[0]] + a) + b;
    }
  }

  // ---------------------------------------------------------------------
  // str.split(p) and str.join

  /** sep.join(parts). */
  function Join(sep: string, parts: seq<string>): string {
    if parts == [] then ""
    else if |parts| == 1 then parts[0]
    else parts[0] + sep + Join(sep, parts[1..])
  }

  /** s.split(p) for a non-empty separator: always at least one piece. */
  function Split(s: string, p: string): (r: seq<string>)
    requires |p| > 0
    ensures |r| >= 1
    decreases |s|
  {
    if s == [] then [[]]
    else if p <= s then [[]] + Split(s[|p|..], p)
    else
      var rest := Split(s[1..], p);
      [[s[0]] + rest[0]] + rest[1..]
  }

  lemma JoinExtendsFirst(sep: string, c: char, parts: seq<string>)
    requires |parts| >= 1
    ensures Join(sep, [[c] + parts[0]] + parts[1..]) == [c] + Join(sep, parts)
  {
    var q := [[c] + parts[0]] + parts[1..];
    if |parts| > 1 {
      assert q[1..] == parts[1..];
    }
  }

  lemma JoinLast(sep: string, parts: seq<string>)
    requires |parts| >= 2
    ensures Join(sep, parts) == Join(sep, parts[..|parts| - 1]) + sep + parts[|parts| - 1]
    decreases |parts|
  {
    if |parts| > 2 {
      JoinLast(sep, parts[1..]);
      var init := parts[..|parts| - 1];
      var last := parts[|parts| - 1];
      assert parts[1..][..|parts| - 2] == init[1..];
      assert parts[1..][|parts| - 2] == last;
      var m := Join(sep, init[1..]);
      assert Join(sep, parts) == parts[0] + sep + (m + sep + last);
      assert Join(sep, init) == parts[0] + sep + m;
      assert parts[0] + sep + (m + sep + last) == parts[0] + sep + m + sep + last;
    }
  }

  /** Each part occurs in the joined string. */
  lemma {:induction false} JoinContainsPart(sep: string, parts: seq<string>, i: int)
    requires 0 <= i < |parts|
    ensures Contains(Join(sep, parts), parts[i])
    decreases |parts|
  {
    if |parts| == 1 {
      ContainsSelf(parts[0]);
    } else if i == 0 {
      ContainsSelf(parts[0]);
      ContainsInLeft(parts[0], sep + Join(sep, parts[1..]), parts[0]);
      assert parts[0] + sep + Join(sep, parts[1..]) == parts[0] + (sep + Join(sep, parts[1..]));
    } else {
      JoinContainsPart(sep, parts[1..], i - 1);
      ContainsInRight(parts[0] + sep, Join(sep, parts[1..]), parts[i]);
      assert parts[0] + sep + Join(sep, parts[1..]) == (parts[0] + sep) + Join(sep, parts[1..]);
    }
  }

  /** Python's identity s.replace(p, r) == r.join(s.split(p)). */
  lemma {:induction false} ReplaceIsJoinOfSplit(s: string, p: string, r: string)
    requires |p| > 0
    ensures ReplaceAll(s, p, r) == Join(r, Split(s, p))
    decreases |s|
  {
    if s == [] {
    } else if p <= s {
      ReplaceIsJoinOfSplit(s[|p|..], p, r);
      var parts := [[]] + Split(s[|p|..], p);
      assert parts[1..] == Split(s[|p|..], p);
    } else {
      ReplaceIsJoinOfSplit(s[1..], p, r);
      JoinExtendsFirst(r, s[0], Split(s[1..], p));
    }
  }

  /** Splitting and joining with the same separator gives the string back:
      p.join(s.split(p)) == s. */
  lemma SplitJoinRoundTrip(s: string, p: string)
    requires |p| > 0
    ensures Join(p, Split(s, p)) == s
  {
    ReplaceIsJoinOfSplit(s, p, p);
    ReplaceSelf(s, p);
  }

  /** Replacing p by itself changes nothing. */
  lemma {:induction false} ReplaceSelf(s: string, p: string)
    requires |p| > 0
    ensures ReplaceAll(s, p, p) == s
    decreases |s|
  {
    if s == [] {
    } else if p <= s {
      ReplaceSelf(s[|p|..], p);
      assert s == s[..|p|] + s[|p|..];
    } else {
      ReplaceSelf(s[1..], p);
      assert s == [s[0]] + s[1..];
    }
  }

  /** Splitting on one character leaves that character in no piece. */
  lemma {:induction false} SplitOnCharPieces(s: string, c: char)
    ensures forall i :: 0 <= i < |Split(s, [c])| ==> c !in Split(s, [c])[i]
    decreases |s|
  {
    if s != [] {
      if [c] <= s {
        SplitOnCharPieces(s[1..], c);
        assert s[|[c]|..] == s[1..];
      } else {
        SplitOnCharPieces(s[1..], c);
        assert s[0] != c;
      }
    }
  }

  /** s.split(sep)[-1]. */
  function LastPiece(s: string, sep: string): string
    requires |sep| > 0
  {
    var parts := Split(s, sep);
    parts[|parts| - 1]
  }

  /** The last piece of s.split(c) is the longest suffix of s free of c. */
  lemma LastPieceOnChar(s: string, c: char)
    ensures var f := LastPiece(s, [c]);
      && c !in f
      && |f| <= |s| && s[|s| - |f|..] == f
      && (|f| == |s| || s[|s| - |f| - 1] == c)
  {
    var parts := Split(s, [c]);
    var f := parts[|parts| - 1];
    SplitOnCharPieces(s, c);
    SplitJoinRoundTrip(s, [c]);
    if |parts| >= 2 {
      JoinLast([c], parts);
      var front := Join([c], parts[..|parts| - 1]);
      assert s == front + [c] + f;
      assert s[|s| - |f|..] == f;
      assert s[|s| - |f| - 1] == c;
    } else {
      assert s == f;
    }
  }
}
