/** config/config.py: the event taxonomy, an insertion-ordered map from label
    to its "relevant" flag, kept in an EventConfig object that writes itself
    back to the configuration file after every change. */
module Config {
  import opened Wrappers

  /** The events dict: its keys in insertion order and each key's flag. */
  datatype Table = Table(order: seq<string>, relevant: map<string, bool>)

  predicate Distinct(s: seq<string>) {
    forall i, j :: 0 <= i < j < |s| ==> s[i] != s[j]
  }

  /** A dict as Python keeps it: each key once, in the order, with a flag. */
  predicate WellFormed(t: Table) {
    && Distinct(t.order)
    && (forall l :: l in t.relevant ==> l in t.order)
    && (forall i :: 0 <= i < |t.order| ==> t.order[i] in t.relevant)
  }

  /** The ten labels written when no configuration file exists. */
  function DefaultTable(): Table {
    Table(
      ["Acquisition", "Customer Event", "Personnel Change", "Financial Event",
       "Open Market Purchase", "Open Market Sale", "Option Exercise",
       "Shares Withheld for Taxes", "Automatic Sale under Rule 10b5-1", "Other"],
      map[
        "Acquisition" := true, "Customer Event" := true, "Personnel Change" := true,
        "Financial Event" := true, "Open Market Purchase" := true, "Open Market Sale" := true,
        "Option Exercise" := true, "Shares Withheld for Taxes" := false,
        "Automatic Sale under Rule 10b5-1" := false, "Other" := false])
  }

  /** `events.get(l, {}).get("relevant", False)`. */
  function Lookup(t: Table, l: string): (r: bool)
    ensures r <==> l in t.relevant && t.relevant[l]
  {
    if l in t.relevant then t.relevant[l] else false
  }

  /** The order without one label, the others kept in their order. */
  function Without(s: seq<string>, x: string): (r: seq<string>)
    ensures forall m :: m in r <==> m in s && m != x
    ensures |r| <= |s|
  {
    if s == [] then []
    else if s[0] == x then Without(s[1..], x)
    else [s[0]] + Without(s[1..], x)
  }

  /** `events[l] = {"relevant": r}`: a new label goes last, an existing one
      keeps its place; only l's flag changes. */
  function Added(t: Table, l: string, r: bool): (u: Table)
    ensures l in t.relevant ==> u.order == t.order
    ensures l !in t.relevant ==> u.order == t.order + [l]
    ensures Lookup(u, l) == r && l in u.relevant
    ensures forall m :: m != l ==> Lookup(u, m) == Lookup(t, m) && (m in u.relevant <==> m in t.relevant)
  {
    if l in t.relevant then Table(t.order, t.relevant[l := r])
    else Table(t.order + [l], t.relevant[l := r])
  }

  /** `del events[l]` when present; nothing otherwise. */
  function Removed(t: Table, l: string): (u: Table)
    ensures l !in u.relevant && (WellFormed(t) ==> l !in u.order)
    ensures l !in t.relevant ==> u == t
    ensures forall m :: m != l ==> Lookup(u, m) == Lookup(t, m) && (m in u.relevant <==> m in t.relevant)
  {
    if l in t.relevant then Table(Without(t.order, l), t.relevant - {l}) else t
  }

  /** `events[l]["relevant"] = r` when present; never adds a label. */
  function Updated(t: Table, l: string, r: bool): (u: Table)
    ensures u.order == t.order && u.relevant.Keys == t.relevant.Keys
    ensures l in t.relevant ==> Lookup(u, l) == r
    ensures forall m :: m != l ==> Lookup(u, m) == Lookup(t, m)
    ensures l !in t.relevant ==> u == t
  {
    if l in t.relevant then Table(t.order, t.relevant[l := r]) else t
  }

  // ---------------------------------------------------------------------
  // Facts about the table operations

  lemma DefaultTableFacts()
    ensures WellFormed(DefaultTable())
    ensures |DefaultTable().order| == 10
    ensures forall i :: 0 <= i < 7 ==> Lookup(DefaultTable(), DefaultTable().order[i])
    ensures forall i :: 7 <= i < 10 ==> !Lookup(DefaultTable(), DefaultTable().order[i])
  {
    DefaultOrderDistinct();
    DefaultKeysInOrder();
    DefaultOrderInKeys();
    DefaultFlags();
  }

  lemma DefaultFlags()
    ensures |DefaultTable().order| == 10
    ensures forall i :: 0 <= i < 7 ==> Lookup(DefaultTable(), DefaultTable().order[i])
    ensures forall i :: 7 <= i < 10 ==> !Lookup(DefaultTable(), DefaultTable().order[i])
  {
  }

  lemma DefaultOrderDistinct()
    ensures Distinct(DefaultTable().order)
  {
    var o := DefaultTable().order;
    forall i, j | 0 <= i < j < |o| ensures o[i] != o[j] {
      assert |o[i]| != |o[j]| || o[i][0] != o[j][0];
    }
  }

  lemma DefaultKeysInOrder()
    ensures forall l :: l in DefaultTable().relevant ==> l in DefaultTable().order
  {
  }

  lemma DefaultOrderInKeys()
    ensures forall i :: 0 <= i < |DefaultTable().order| ==> DefaultTable().order[i] in DefaultTable().relevant
  {
  }

  lemma {:induction false} WithoutAbsent(s: seq<string>, x: string)
    requires x !in s
    ensures Without(s, x) == s
  {
    if s != [] {
      assert s[0] != x;
      WithoutAbsent(s[1..], x);
    }
  }

  /** Removing the label at position k of a duplicate-free order cuts out
      exactly that position. */
  lemma {:induction false} WithoutAt(s: seq<string>, k: nat)
    requires Distinct(s) && k < |s|
    ensures Without(s, s[k]) == s[..k] + s[k + 1..]
  {
    TailDistinct(s);
    if k == 0 {
      WithoutAbsent(s[1..], s[k]);
    } else {
      var t := s[1..];
      assert t[k - 1] == s[k] && s[0] != s[k];
      WithoutAt(t, k - 1);
      assert Without(s, s[k]) == [s[0]] + (t[..k - 1] + t[k..]);
      ConsCut(s, k);
    }
  }

  /** Cutting position k out of s, seen from its tail. */
  lemma ConsCut(s: seq<string>, k: nat)
    requires 0 < k < |s|
    ensures [s[0]] + (s[1..][..k - 1] + s[1..][k..]) == s[..k] + s[k + 1..]
  {
    var t := s[1..];
    assert s[..k] == [s[0]] + t[..k - 1];
    assert s[k + 1..] == t[k..];
  }

  lemma TailDistinct(s: seq<string>)
    requires Distinct(s) && s != []
    ensures Distinct(s[1..]) && s[0] !in s[1..]
  {
    var t := s[1..];
    forall i, j | 0 <= i < j < |t| ensures t[i] != t[j] {
      assert t[i] == s[i + 1] && t[j] == s[j + 1];
    }
    forall i | 0 <= i < |t| ensures t[i] != s[0] {
      assert t[i] == s[i + 1];
    }
  }

  lemma {:induction false} WithoutKeepsDistinct(s: seq<string>, x: string)
    requires Distinct(s)
    ensures Distinct(Without(s, x))
  {
    if s != [] {
      WithoutKeepsDistinct(s[1..], x);
      assert s[0] !in s[1..];
    }
  }

  lemma AddedWellFormed(t: Table, l: string, r: bool)
    requires WellFormed(t)
    ensures WellFormed(Added(t, l, r))
  {
  }

  lemma RemovedWellFormed(t: Table, l: string)
    requires WellFormed(t)
    ensures WellFormed(Removed(t, l))
  {
    WithoutKeepsDistinct(t.order, l);
    var u := Removed(t, l);
    forall i | 0 <= i < |u.order| ensures u.order[i] in u.relevant {
      assert u.order[i] in u.order;
    }
  }

  lemma UpdatedWellFormed(t: Table, l: string, r: bool)
    requires WellFormed(t)
    ensures WellFormed(Updated(t, l, r))
  {
  }

  /** A label that is present is removed from its place only. */
  lemma RemovedKeepsOrder(t: Table, k: nat)
    requires WellFormed(t) && k < |t.order|
    ensures Removed(t, t.order[k]).order == t.order[..k] + t.order[k + 1..]
  {
    WithoutAt(t.order, k);
  }

  /** Removing a label just added gives back the table before. */
  lemma RemoveUndoesAdd(t: Table, l: string, r: bool)
    requires WellFormed(t) && l !in t.relevant
    ensures Removed(Added(t, l, r), l) == t
  {
    var u := Added(t, l, r);
    assert l !in t.order;
    AppendKeepsDistinct(t.order, l);
    assert u.order == t.order + [l];
    WithoutAt(u.order, |t.order|);
    assert u.order[..|t.order|] == t.order;
    assert u.order[|t.order| + 1..] == [];
    assert u.relevant - {l} == t.relevant;
  }

  lemma AppendKeepsDistinct(s: seq<string>, x: string)
    requires Distinct(s) && x !in s
    ensures Distinct(s + [x])
  {
    var s' := s + [x];
    forall i, j | 0 <= i < j < |s'| ensures s'[i] != s'[j] {
      if j == |s| {
        assert s'[i] == s[i];
      } else {
        assert s'[i] == s[i] && s'[j] == s[j];
      }
    }
  }

  /** Re-adding a present label with its own flag changes nothing, and on
      a present label update and add agree. */
  lemma AddIsUpdateWhenPresent(t: Table, l: string, r: bool)
    requires l in t.relevant
    ensures Added(t, l, r) == Updated(t, l, r)
    ensures Added(t, l, t.relevant[l]) == t
  {
  }

  // ---------------------------------------------------------------------
  // The CLI's `relevant.lower() == 'true'`

  function LowerAscii(c: char): char {
    if 'A' <= c <= 'Z' then (c as int + 32) as char else c
  }

  function Lower(s: string): (r: string)
    ensures |r| == |s| && forall i :: 0 <= i < |s| ==> r[i] == LowerAscii(s[i])
  {
    if s == [] then [] else [LowerAscii(s[0])] + Lower(s[1..])
  }

  /** True exactly for "true" in any mix of upper and lower case. */
  function ParseRelevantFlag(s: string): (r: bool)
    ensures r <==> |s| == 4 && s[0] in "tT" && s[1] in "rR" && s[2] in "uU" && s[3] in "eE"
  {
    var low := Lower(s);
    assert low == "true" <==> |s| == 4 && low[0] == 't' && low[1] == 'r' && low[2] == 'u' && low[3] == 'e';
    low == "true"
  }

  // ---------------------------------------------------------------------
  // EventConfig

  class EventConfig {
    var order: seq<string>
    var relevant: map<string, bool>
    /** Every table _save_config has written to the file, oldest first. */
    ghost var writes: seq<Table>

    function Current(): Table
      reads this
    {
      Table(order, relevant)
    }

    ghost predicate Valid()
      reads this
    {
      WellFormed(Current()) && (writes != [] ==> writes[|writes| - 1] == Current())
    }

    /** `stored` is the file's contents, None when it does not exist, in
        which case the default table is created and written. */
    constructor(stored: Option<Table>)
      requires stored.Some? ==> WellFormed(stored.value)
      ensures Valid()
      ensures stored.None? ==> Current() == DefaultTable() && writes == [DefaultTable()]
      ensures stored.Some? ==> Current() == stored.value && writes == []
    {
      DefaultTableFacts();
      match stored
      case None =>
        order, relevant := DefaultTable().order, DefaultTable().relevant;
        writes := [DefaultTable()];
      case Some(t) =>
        order, relevant := t.order, t.relevant;
        writes := [];
    }

    method AddEventType(eventType: string, isRelevant: bool := true)
      requires Valid()
      modifies this
      ensures Valid()
      ensures Current() == Added(old(Current()), eventType, isRelevant)
      ensures writes == old(writes) + [Current()]
    {
      AddedWellFormed(Current(), eventType, isRelevant);
      if eventType !in relevant {
        order := order + [eventType];
      }
      relevant := relevant[eventType := isRelevant];
      writes := writes + [Current()];
    }

    method RemoveEventType(eventType: string)
      requires Valid()
      modifies this
      ensures Valid()
      ensures Current() == Removed(old(Current()), eventType)
      ensures eventType in old(relevant) ==> writes == old(writes) + [Current()]
      ensures eventType !in old(relevant) ==> writes == old(writes) && Current() == old(Current())
    {
      RemovedWellFormed(Current(), eventType);
      if eventType in relevant {
        order := Without(order, eventType);
        relevant := relevant - {eventType};
        writes := writes + [Current()];
      }
    }

    method UpdateRelevance(eventType: string, isRelevant: bool)
      requires Valid()
      modifies this
      ensures Valid()
      ensures Current() == Updated(old(Current()), eventType, isRelevant)
      ensures eventType in old(relevant) ==> writes == old(writes) + [Current()]
      ensures eventType !in old(relevant) ==> writes == old(writes) && Current() == old(Current())
    {
      UpdatedWellFormed(Current(), eventType, isRelevant);
      if eventType in relevant {
        relevant := relevant[eventType := isRelevant];
        writes := writes + [Current()];
      }
    }

    /** The labels in insertion order, each once. */
    function GetEventTypes(): (r: seq<string>)
      reads this
      requires Valid()
      ensures r == Current().order
      ensures Distinct(r)
      ensures forall l :: l in r <==> l in relevant
    {
      order
    }

    /** The stored flag of a known label, false for any other. */
    function IsRelevant(eventType: string): (r: bool)
      reads this
      ensures r <==> eventType in relevant && relevant[eventType]
    {
      Lookup(Current(), eventType)
    }
  }
}
