/** The before/after states of one audited row (`Diff`), the operation that
    produced them and the per-column pair a diff table shows (`StateColumn`). */
module Diff {
  import opened Results

  datatype Operation = INSERT | UPDATE | DELETE

  /** The exceptions the modelled code can raise. */
  datatype Error = NullPointer

  /** No column name occurs twice. */
  predicate DistinctNames<V>(entries: seq<(string, V)>)
  {
    forall i, j :: 0 <= i < j < |entries| ==> entries[i].0 != entries[j].0
  }

  /** A parsed state (`Map<String, Object>`): column name to value, listed in
      the map's iteration order. */
  type State<V> = entries: seq<(string, V)> | DistinctNames(entries) witness []

  /** The key set, in iteration order. */
  function Names<V>(s: State<V>): (names: seq<string>)
    ensures |names| == |s|
    ensures forall i :: 0 <= i < |s| ==> names[i] == s[i].0
  {
    seq(|s|, i requires 0 <= i < |s| => s[i].0)
  }

  lemma NamesDistinct<V>(s: State<V>)
    ensures forall i, j :: 0 <= i < j < |Names(s)| ==> Names(s)[i] != Names(s)[j]
  {
  }

  /** `Map.get`: the value stored under `name`, or `null` (`None`). */
  function Get<V>(s: State<V>, name: string): (r: Option<V>)
    ensures r.Some? <==> name in Names(s)
    ensures r.Some? ==> exists i :: 0 <= i < |s| && s[i] == (name, r.value)
  {
    if |s| == 0 then None
    else if s[0].0 == name then Some(s[0].1)
    else
      var rest: State<V> := s[1..];
      assert Names(s) == [s[0].0] + Names(rest);
      Get(rest, name)
  }

  /** Looking up the `i`-th listed column gives its listed value. */
  lemma {:induction false} GetListed<V>(s: State<V>, i: nat)
    requires i < |s|
    ensures Get(s, s[i].0) == Some(s[i].1)
    decreases |s|
  {
    if i > 0 {
      var rest: State<V> := s[1..];
      assert rest[i - 1] == s[i];
      GetListed(rest, i - 1);
    }
  }

  /** No value of the state is Java's `null` (`None`). */
  predicate NullFree<V>(s: State<Option<V>>)
  {
    forall i :: 0 <= i < |s| ==> s[i].1.Some?
  }

  /** A stored state that can be copied: parsed, and without a `null` value. */
  predicate Readable<V>(s: Option<State<Option<V>>>)
  {
    s.Some? && NullFree(s.value)
  }

  /** Guava's `ImmutableMap.copyOf`: the same entries in the same order.
      Copying a `null` map throws, and so does copying a map holding a
      `null` value (an SQL NULL column, say). Column names are never `null`. */
  function CopyOf<V>(s: Option<State<Option<V>>>): (r: Result<State<V>, Error>)
    ensures r.Failure? <==> !Readable(s)
    ensures r.Success? ==> |r.value| == |s.value|
    ensures r.Success? ==> forall i :: 0 <= i < |s.value| ==>
      s.value[i] == (r.value[i].0, Some(r.value[i].1))
  {
    if !Readable(s) then Failure(NullPointer)
    else
      var t := s.value;
      var copy := seq(|t|, i requires 0 <= i < |t| => (t[i].0, t[i].1.value));
      assert forall i :: 0 <= i < |t| ==> copy[i].0 == t[i].0;
      Success(copy)
  }

  /** The copy answers every lookup as the original does: the same names,
      and the stored value of each, now known not to be `null`. */
  lemma {:induction false} CopyOfLookups<V>(s: State<Option<V>>, name: string)
    requires NullFree(s)
    ensures CopyOf(Some(s)).Success?
    ensures Names(CopyOf(Some(s)).value) == Names(s)
    ensures Get(s, name).None? <==> Get(CopyOf(Some(s)).value, name).None?
    ensures Get(s, name).Some? ==> Get(s, name) == Some(Get(CopyOf(Some(s)).value, name))
    decreases |s|
  {
    var copy := CopyOf(Some(s)).value;
    if |s| > 0 && s[0].0 != name {
      var rest: State<Option<V>> := s[1..];
      CopyOfLookups(rest, name);
      var restCopy := CopyOf(Some(rest)).value;
      assert copy[1..] == restCopy;
      assert Get(copy, name) == Get(restCopy, name);
    }
  }

  /** A diff: either state is `null` until it is parsed. The concrete
      subclasses' `parseData` is a parameter `parse`; a parsed value may be
      `null`. */
  datatype Diff<V> = Diff(oldState: Option<State<Option<V>>>, newState: Option<State<Option<V>>>)

  /** A freshly constructed diff: nothing parsed yet. */
  function Unparsed<V>(): Diff<V>
  {
    Diff(None, None)
  }

  /** `parseOldData`: stores the parsed old state. */
  function ParseOldData<V>(d: Diff<V>, oldData: string, parse: string -> State<Option<V>>): (r: Diff<V>)
    ensures r.oldState == Some(parse(oldData))
    ensures r.newState == d.newState
  {
    d.(oldState := Some(parse(oldData)))
  }

  /** `parseNewData`: stores the parsed new state. */
  function ParseNewData<V>(d: Diff<V>, newData: string, parse: string -> State<Option<V>>): (r: Diff<V>)
    ensures r.newState == Some(parse(newData))
    ensures r.oldState == d.oldState
  {
    d.(newState := Some(parse(newData)))
  }

  /** `getOldState`: an immutable copy of the stored state; it throws when
      the state was never parsed or holds a `null` value. */
  function GetOldState<V>(d: Diff<V>): (r: Result<State<V>, Error>)
    ensures r.Failure? <==> d.oldState.None? || !NullFree(d.oldState.value)
    ensures r.Success? ==> Names(r.value) == Names(d.oldState.value)
    ensures r.Success? ==> forall i :: 0 <= i < |r.value| ==> d.oldState.value[i].1 == Some(r.value[i].1)
  {
    CopyOf(d.oldState)
  }

  /** `getNewState`: an immutable copy of the stored state; it throws when
      the state was never parsed or holds a `null` value. */
  function GetNewState<V>(d: Diff<V>): (r: Result<State<V>, Error>)
    ensures r.Failure? <==> d.newState.None? || !NullFree(d.newState.value)
    ensures r.Success? ==> Names(r.value) == Names(d.newState.value)
    ensures r.Success? ==> forall i :: 0 <= i < |r.value| ==> d.newState.value[i].1 == Some(r.value[i].1)
  {
    CopyOf(d.newState)
  }

  /** The state whose columns an operation shows: the new one for an
      insert, the old one otherwise. */
  function Shown<V>(d: Diff<V>, op: Operation): Option<State<Option<V>>>
  {
    if op == INSERT then d.newState else d.oldState
  }

  /** `getStateColumnNames`: the key set of the new state for INSERT and of
      the old state for UPDATE and DELETE, read through the getter. */
  function GetStateColumnNames<V>(d: Diff<V>, op: Operation): (r: Result<seq<string>, Error>)
    ensures r.Success? <==> Readable(Shown(d, op))
    ensures op == INSERT && r.Success? ==> r.value == Names(d.newState.value)
    ensures op != INSERT && r.Success? ==> r.value == Names(d.oldState.value)
  {
    var state :- if op == INSERT then GetNewState(d) else GetOldState(d);
    Success(Names(state))
  }

  /** Parsing one side leaves the other side's getter as it was; the parsed
      side reads back what the parser produced, unless it produced a `null`
      value. */
  lemma ParseThenGet<V>(d: Diff<V>, data: string, parse: string -> State<Option<V>>)
    ensures GetOldState(ParseOldData(d, data, parse)).Success? <==> NullFree(parse(data))
    ensures GetNewState(ParseNewData(d, data, parse)).Success? <==> NullFree(parse(data))
    ensures NullFree(parse(data)) ==>
      && GetOldState(ParseOldData(d, data, parse)) == CopyOf(Some(parse(data)))
      && GetNewState(ParseNewData(d, data, parse)) == CopyOf(Some(parse(data)))
    ensures GetNewState(ParseOldData(d, data, parse)) == GetNewState(d)
    ensures GetOldState(ParseNewData(d, data, parse)) == GetOldState(d)
  {
  }

  /** Once both sides are parsed, the column names are the parsed new keys
      for an insert and the parsed old keys otherwise, without duplicates;
      a `null` value in the shown state makes the getter throw instead. */
  lemma ColumnNamesOfParsedDiff<V>(oldData: string, newData: string, parse: string -> State<Option<V>>, op: Operation)
    ensures var d := ParseNewData(ParseOldData(Unparsed(), oldData, parse), newData, parse);
      var shown := parse(if op == INSERT then newData else oldData);
      && (GetStateColumnNames(d, op).Success? <==> NullFree(shown))
      && (GetStateColumnNames(d, op).Success? ==> GetStateColumnNames(d, op).value == Names(shown))
  {
  }

  /** One column of the diff table. `getMaxLength` is computed elsewhere
      and is kept here as the value fixed at construction. */
  datatype StateColumn = StateColumn(
    name: string,
    oldValue: string,
    newValue: string,
    hasDiff: bool,
    cut: bool,
    maxLength: nat)

  /** `new StateColumn(name, old, new)`, with the width measure as a parameter. */
  function NewStateColumn(name: string, oldValue: string, newValue: string,
                          measure: (string, string, string) -> nat): (c: StateColumn)
    ensures c.name == name && c.oldValue == oldValue && c.newValue == newValue
    ensures !c.hasDiff && !c.cut
    ensures c.maxLength == measure(name, oldValue, newValue)
  {
    StateColumn(name, oldValue, newValue, false, false, measure(name, oldValue, newValue))
  }

  /** `compare()`: records whether the two values differ, per the parameter
      `differ`; nothing else changes. */
  function Compare(c: StateColumn, differ: (string, string) -> bool): (r: StateColumn)
    ensures r.hasDiff == differ(c.oldValue, c.newValue)
    ensures r.name == c.name && r.oldValue == c.oldValue && r.newValue == c.newValue
    ensures r.cut == c.cut && r.maxLength == c.maxLength
  {
    c.(hasDiff := differ(c.oldValue, c.newValue))
  }
}
