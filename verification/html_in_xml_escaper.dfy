/** The embedded-markup defence applied to tag-structured state documents
    before they are parsed: a detector that compares the number of `<` and
    `>` characters with what the column-state tags explain, and an escaper
    that rewrites the text between a start tag and its end tag with a fixed,
    ordered table of seven character entities. */
module HtmlInXmlEscaper {
  import opened Results
  import opened Text

  /** The replacement table, applied in this order (`&` first). */
  const Replacements: seq<(char, string)> := [
    ('&', "&amp;"),
    ('>', "&gt;"),
    ('<', "&lt;"),
    ('"', "&quot;"),
    ('\'', "&apos;"),
    ('/', "&#47;"),
    ('\\', "&#92;")
  ]

  /** Structural markers expected besides the column-state tags. */
  const BaseMarkers: nat := 4

  // ---------------------------------------------------------------------
  // Regular-expression character classes used by the source's patterns.

  /** The characters Java's `.` does not match. */
  predicate IsLineTerminator(c: char)
  {
    c == '\n' || c == '\r' || c == '\U{85}' || c == '\U{2028}' || c == '\U{2029}'
  }

  /** Java's `\s`. */
  predicate IsRegexSpace(c: char)
  {
    c == ' ' || c == '\t' || c == '\n' || c == '\U{B}' || c == '\U{C}' || c == '\r'
  }

  // ---------------------------------------------------------------------
  // Detection

  /** The first `>` at or after `k`, provided no line terminator comes first
      (the lazy `.*?>` of the start-tag pattern). */
  function ClosingAngle(s: string, k: nat): (r: Option<nat>)
    ensures r.Some? ==> k <= r.value < |s| && s[r.value] == '>'
    decreases |s| - k
  {
    if k >= |s| then None
    else if s[k] == '>' then Some(k)
    else if IsLineTerminator(s[k]) then None
    else ClosingAngle(s, k + 1)
  }

  /** Length of the match of `<TAG\s.*?>` at the start of `s`, if any. */
  function StartTagMatch(s: string, tag: string): (r: Option<nat>)
    ensures r.Some? ==> 0 < r.value <= |s| && s[0] == '<' && s[r.value - 1] == '>'
  {
    var open := "<" + tag;
    if |s| <= |open| || s[..|open|] != open || !IsRegexSpace(s[|open|]) then None
    else
      match ClosingAngle(s, |open| + 1)
      case Some(j) => Some(j + 1)
      case None => None
  }

  /** `countColumnStateTags`: the number of successive `find`s of the
      column-state start-tag pattern. */
  function CountColumnStateTags(s: string, tag: string): nat
    decreases |s|
  {
    if |s| == 0 then 0
    else
      match StartTagMatch(s, tag)
      case Some(len) => 1 + CountColumnStateTags(s[len..], tag)
      case None => CountColumnStateTags(s[1..], tag)
  }

  /** `isHtmlBetweenXmlTags`: more `>` or more `<` than 4 + 2N, where N is
      the number of column-state start tags. */
  predicate IsHtmlBetweenXmlTags(data: string, tag: string)
  {
    var expected := BaseMarkers + 2 * CountColumnStateTags(data, tag);
    CountChar(data, '>') > expected || CountChar(data, '<') > expected
  }

  /** Every start tag found spends one `<` and one `>`, so N never exceeds
      either count. */
  lemma {:induction false} TagCountBounded(s: string, tag: string)
    ensures CountColumnStateTags(s, tag) <= CountChar(s, '>')
    ensures CountColumnStateTags(s, tag) <= CountChar(s, '<')
    decreases |s|
  {
    if |s| > 0 {
      match StartTagMatch(s, tag)
      case Some(len) =>
        TagCountBounded(s[len..], tag);
        var head := s[..len];
        SplitAt(s, len);
        CountCharAppend(head, s[len..], '>');
        CountCharAppend(head, s[len..], '<');
        assert head[0] == '<' && head[len - 1] == '>';
        CountCharPositive(head, '<');
        CountCharPositive(head, '>');
      case None =>
        TagCountBounded(s[1..], tag);
        assert s == [s[0]] + s[1..];
        CountCharAppend([s[0]], s[1..], '>');
        CountCharAppend([s[0]], s[1..], '<');
    }
  }

  lemma {:induction false} ClosingAngleAppend(s: string, w: string, k: nat)
    requires '>' !in w
    ensures ClosingAngle(s + w, k) == ClosingAngle(s, k)
    decreases |s + w| - k
  {
    if k < |s| {
      assert (s + w)[k] == s[k];
      ClosingAngleAppend(s, w, k + 1);
    } else if k < |s + w| {
      assert (s + w)[k] == w[k - |s|];
      ClosingAngleAppend(s, w, k + 1);
    }
  }

  lemma StartTagMatchAppend(s: string, w: string, tag: string)
    requires '>' !in w
    ensures StartTagMatch(s + w, tag) == StartTagMatch(s, tag)
  {
    var open := "<" + tag;
    ClosingAngleAppend(s, w, |open| + 1);
    if |s| > |open| {
      assert (s + w)[..|open|] == s[..|open|];
      assert (s + w)[|open|] == s[|open|];
    } else if |s + w| > |open| {
      ClosingAngleAppend(s, w, |open| + 1);
    }
  }

  /** Text without a `>` cannot complete a start tag, so appending it leaves
      the column-state tag count unchanged. */
  lemma {:induction false} CountTagsAppend(s: string, w: string, tag: string)
    requires '>' !in w
    ensures CountColumnStateTags(s + w, tag) == CountColumnStateTags(s, tag)
    decreases |s|
  {
    if |s| == 0 {
      assert s + w == w;
      TagCountBounded(w, tag);
      CountCharAbsent(w, '>');
    } else {
      StartTagMatchAppend(s, w, tag);
      match StartTagMatch(s, tag)
      case Some(len) =>
        assert (s + w)[len..] == s[len..] + w;
        CountTagsAppend(s[len..], w, tag);
      case None =>
        assert (s + w)[1..] == s[1..] + w;
        CountTagsAppend(s[1..], w, tag);
    }
  }

  lemma {:induction false} CountCharAbsent(s: string, c: char)
    requires c !in s
    ensures CountChar(s, c) == 0
    decreases |s|
  {
    if |s| > 0 {
      CountCharAbsent(s[1..], c);
    }
  }

  /** A document whose markers are exactly the structural ones is not
      flagged; adding stray text holding a `<` (and no `>`) to it is. */
  lemma StrayMarkupDetected(data: string, w: string, tag: string)
    requires CountChar(data, '<') == BaseMarkers + 2 * CountColumnStateTags(data, tag)
    requires CountChar(data, '>') == BaseMarkers + 2 * CountColumnStateTags(data, tag)
    requires '>' !in w && '<' in w
    ensures !IsHtmlBetweenXmlTags(data, tag)
    ensures IsHtmlBetweenXmlTags(data + w, tag)
  {
    CountTagsAppend(data, w, tag);
    CountCharAppend(data, w, '<');
    CountCharPositive(w, '<');
  }

  lemma {:induction false} CountCharPositive(s: string, c: char)
    requires c in s
    ensures CountChar(s, c) > 0
    decreases |s|
  {
    if s[0] != c {
      CountCharPositive(s[1..], c);
    }
  }

  // ---------------------------------------------------------------------
  // Escaping

  /** Applies `table` in order, each entry as a `String.replace` of its
      character by its entity. */
  function ApplyReplacements(s: string, table: seq<(char, string)>): string
    decreases |table|
  {
    if |table| == 0 then s
    else ApplyReplacements(ReplaceAll(s, [table[0].0], table[0].1), table[1..])
  }

  /** `escapeContent`. */
  function EscapeContent(content: string): string
  {
    ApplyReplacements(content, Replacements)
  }

  /** One of the seven escaped characters. */
  predicate IsSpecial(c: char)
  {
    c == '&' || c == '>' || c == '<' || c == '"' || c == '\'' || c == '/' || c == '\\'
  }

  /** The entity the table gives `c`, or `c` itself. */
  function EscapeChar(c: char): (r: string)
    ensures |r| >= 1
  {
    if c == '&' then "&amp;"
    else if c == '>' then "&gt;"
    else if c == '<' then "&lt;"
    else if c == '"' then "&quot;"
    else if c == '\'' then "&apos;"
    else if c == '/' then "&#47;"
    else if c == '\\' then "&#92;"
    else [c]
  }

  /** Character-by-character escaping: the single-pass reading of the table. */
  function EscapeEach(s: string): string
  {
    if |s| == 0 then [] else EscapeChar(s[0]) + EscapeEach(s[1..])
  }

  lemma {:induction false} ApplyReplacementsAppend(a: string, b: string, table: seq<(char, string)>)
    ensures ApplyReplacements(a + b, table) == ApplyReplacements(a, table) + ApplyReplacements(b, table)
    decreases |table|
  {
    if |table| > 0 {
      ReplaceCharAppend(a, b, table[0].0, table[0].1);
      ApplyReplacementsAppend(ReplaceAll(a, [table[0].0], table[0].1),
                              ReplaceAll(b, [table[0].0], table[0].1), table[1..]);
    }
  }

  lemma AbsentChar(s: string, c: char)
    requires c !in s
    ensures Absent(s, [c])
  {
    forall i: nat | i <= |s|
      ensures !OccursAt(s, [c], i)
    {
      if i < |s| {
        assert s[i..i + 1] == [s[i]];
      }
    }
  }

  /** Entries whose character does not occur leave the text alone. */
  lemma {:induction false} ApplyUntouched(s: string, table: seq<(char, string)>)
    requires forall k :: 0 <= k < |table| ==> table[k].0 !in s
    ensures ApplyReplacements(s, table) == s
    decreases |table|
  {
    if |table| > 0 {
      AbsentChar(s, table[0].0);
      ReplaceAllAbsent(s, [table[0].0], table[0].1);
      ApplyUntouched(s, table[1..]);
    }
  }

  /** A single character is rewritten by its own entry only, provided no
      later entry's character occurs in the entity. */
  lemma ApplyOnEntity(c: char, table: seq<(char, string)>, k: nat)
    requires k < |table| && table[k].0 == c
    requires forall j :: 0 <= j < k ==> table[j].0 != c
    requires forall j :: k < j < |table| ==> table[j].0 !in table[k].1
    ensures ApplyReplacements([c], table) == table[k].1
    decreases k
  {
    var e := table[0].1;
    var tail := table[1..];
    if k == 0 {
      assert OccursAt([c], [c], 0);
      assert [c][1..] == [];
      assert ReplaceAll([], [c], e) == [];
      assert ReplaceAll([c], [c], e) == e + [];
      forall j | 0 <= j < |tail|
        ensures tail[j].0 !in e
      {
        assert tail[j] == table[j + 1];
      }
      ApplyUntouched(e, tail);
      assert ApplyReplacements([c], table) == ApplyReplacements(e + [], tail);
      assert e + [] == e;
    } else {
      AbsentChar([c], table[0].0);
      ReplaceAllAbsent([c], [table[0].0], e);
      forall j | 0 <= j < k - 1
        ensures tail[j].0 != c
      {
        assert tail[j] == table[j + 1];
      }
      forall j | k - 1 < j < |tail|
        ensures tail[j].0 !in tail[k - 1].1
      {
        assert tail[j] == table[j + 1];
      }
      ApplyOnEntity(c, tail, k - 1);
    }
  }

  lemma EscapeContentSingle(c: char)
    ensures EscapeContent([c]) == EscapeChar(c)
  {
    if IsSpecial(c) {
      EscapeEntity(EntityIndex(c));
    } else {
      ApplyUntouched([c], Replacements);
    }
  }

  /** The table entry of a special character. */
  function EntityIndex(c: char): (k: nat)
    requires IsSpecial(c)
    ensures k < |Replacements| && Replacements[k].0 == c
  {
    if c == '&' then 0
    else if c == '>' then 1
    else if c == '<' then 2
    else if c == '"' then 3
    else if c == '\'' then 4
    else if c == '/' then 5
    else 6
  }

  /** The table lists each character once, and no entity holds a character
      replaced after it; each entry agrees with `EscapeChar`. */
  lemma ReplacementsOrdered()
    ensures forall j, k :: 0 <= j < k < |Replacements| ==> Replacements[j].0 != Replacements[k].0
    ensures forall j, k :: 0 <= k < j < |Replacements| ==> Replacements[j].0 !in Replacements[k].1
    ensures forall k :: 0 <= k < |Replacements| ==> EscapeChar(Replacements[k].0) == Replacements[k].1
  {
  }

  lemma EscapeEntity(k: nat)
    requires k < |Replacements|
    ensures EscapeContent([Replacements[k].0]) == EscapeChar(Replacements[k].0)
  {
    ReplacementsOrdered();
    ApplyOnEntity(Replacements[k].0, Replacements, k);
  }


  /** Applying the seven replacements in table order, `&` first, is the same
      as escaping each character once: an `&` introduced by a later entity
      is never escaped again. */
  lemma {:induction false} EscapeContentIsPerCharacter(s: string)
    ensures EscapeContent(s) == EscapeEach(s)
    decreases |s|
  {
    if |s| > 0 {
      assert s == [s[0]] + s[1..];
      ApplyReplacementsAppend([s[0]], s[1..], Replacements);
      EscapeContentSingle(s[0]);
      EscapeContentIsPerCharacter(s[1..]);
    }
  }

  lemma {:induction false} EscapeEachPlainAndLength(s: string)
    ensures (forall i :: 0 <= i < |s| ==> !IsSpecial(s[i])) ==> EscapeEach(s) == s
    ensures |EscapeEach(s)| >= |s|
    decreases |s|
  {
    if |s| > 0 {
      EscapeEachPlainAndLength(s[1..]);
      if forall i :: 0 <= i < |s| ==> !IsSpecial(s[i]) {
        assert !IsSpecial(s[0]);
        assert EscapeChar(s[0]) == [s[0]];
        assert forall i :: 0 <= i < |s[1..]| ==> !IsSpecial(s[1..][i]);
        assert s == [s[0]] + s[1..];
      }
    }
  }

  /** Escaping is the identity on text with none of the seven characters and
      never shortens its input. */
  lemma EscapeContentPlainAndLength(s: string)
    ensures (forall i :: 0 <= i < |s| ==> !IsSpecial(s[i])) ==> EscapeContent(s) == s
    ensures |EscapeContent(s)| >= |s|
  {
    EscapeContentIsPerCharacter(s);
    EscapeEachPlainAndLength(s);
  }

  /** The table entry whose entity starts `s`, if any. */
  function EntityPrefix(s: string): (r: Option<(char, string)>)
    ensures r.Some? ==> r.value in Replacements && |r.value.1| <= |s| && s[..|r.value.1|] == r.value.1
    ensures r.Some? ==> s[0] == '&'
  {
    EntityPrefixIn(s, Replacements)
  }

  function EntityPrefixIn(s: string, table: seq<(char, string)>): (r: Option<(char, string)>)
    requires forall k :: 0 <= k < |table| ==> |table[k].1| > 0 && table[k].1[0] == '&'
    ensures r.Some? ==> r.value in table && |r.value.1| <= |s| && s[..|r.value.1|] == r.value.1
    ensures r.Some? ==> s[0] == '&'
  {
    if |table| == 0 then None
    else if |table[0].1| <= |s| && s[..|table[0].1|] == table[0].1 then
      assert s[0] == s[..|table[0].1|][0];
      Some(table[0])
    else EntityPrefixIn(s, table[1..])
  }

  predicate IsPrefix(e: string, s: string)
  {
    |e| <= |s| && s[..|e|] == e
  }

  lemma DiffersAt(e: string, s: string, d: nat)
    requires d < |e| && d < |s| && e[d] != s[d]
    ensures !IsPrefix(e, s)
  {
    if |e| <= |s| {
      assert s[..|e|][d] == s[d];
    }
  }

  /** Entries that are not prefixes of `s` are passed over. */
  lemma {:induction false} EntityPrefixSkip(s: string, k: nat)
    requires k <= |Replacements|
    requires forall j :: 0 <= j < k ==> !IsPrefix(Replacements[j].1, s)
    ensures EntityPrefix(s) == EntityPrefixIn(s, Replacements[k..])
    decreases k
  {
    if k > 0 {
      EntityPrefixSkip(s, k - 1);
      var t := Replacements[k - 1..];
      assert t[0] == Replacements[k - 1];
      assert t[1..] == Replacements[k..];
    }
  }

  /** Index of `c`'s entry in the table. */
  function EntryIndex(c: char): (k: nat)
    requires IsSpecial(c)
    ensures k < |Replacements| && Replacements[k].0 == c && Replacements[k].1 == EscapeChar(c)
  {
    if c == '&' then 0
    else if c == '>' then 1
    else if c == '<' then 2
    else if c == '"' then 3
    else if c == '\'' then 4
    else if c == '/' then 5
    else 6
  }

  lemma EntityPrefixOfEscaped(c: char, rest: string)
    requires IsSpecial(c)
    ensures EntityPrefix(EscapeChar(c) + rest) == Some((c, EscapeChar(c)))
  {
    var e := EscapeChar(c);
    var s := e + rest;
    var k := EntryIndex(c);
    assert s[..|e|] == e;
    forall j | 0 <= j < k
      ensures !IsPrefix(Replacements[j].1, s)
    {
      var d := if (k == 4 && j == 0) || (k == 6 && j == 5) then 2 else 1;
      assert s[d] == e[d];
      DiffersAt(Replacements[j].1, s, d);
    }
    EntityPrefixSkip(s, k);
    var t := Replacements[k..];
    assert t[0] == Replacements[k];
  }

  lemma EntityPrefixOfPlain(c: char, rest: string)
    requires !IsSpecial(c)
    ensures EntityPrefix([c] + rest) == None
  {
  }

  /** The shape escaping produces: a sequence of entities and characters that
      are none of the seven. */
  predicate WellEscaped(s: string)
    decreases |s|
  {
    if |s| == 0 then true
    else
      match EntityPrefix(s)
      case Some(entry) => WellEscaped(s[|entry.1|..])
      case None => !IsSpecial(s[0]) && WellEscaped(s[1..])
  }

  /** Reads entities back into their characters. */
  function Unescape(s: string): string
    decreases |s|
  {
    if |s| == 0 then []
    else
      match EntityPrefix(s)
      case Some(entry) => [entry.0] + Unescape(s[|entry.1|..])
      case None => [s[0]] + Unescape(s[1..])
  }

  /** An entity in front of well-escaped text reads back as its character. */
  lemma EntityThenText(c: char, rest: string)
    requires IsSpecial(c)
    ensures WellEscaped(EscapeChar(c) + rest) == WellEscaped(rest)
    ensures Unescape(EscapeChar(c) + rest) == [c] + Unescape(rest)
  {
    var e := EscapeChar(c);
    EntityPrefixOfEscaped(c, rest);
    assert (e + rest)[|e|..] == rest;
  }

  /** A plain character in front of text reads back as itself. */
  lemma PlainThenText(c: char, rest: string)
    requires !IsSpecial(c)
    ensures WellEscaped([c] + rest) == WellEscaped(rest)
    ensures Unescape([c] + rest) == [c] + Unescape(rest)
  {
    EntityPrefixOfPlain(c, rest);
    assert ([c] + rest)[1..] == rest;
  }

  /** Escaping produces well-escaped text, and unescaping undoes it. */
  lemma {:induction false} EscapeEachWellEscaped(s: string)
    ensures WellEscaped(EscapeEach(s))
    ensures Unescape(EscapeEach(s)) == s
    decreases |s|
  {
    if |s| > 0 {
      var rest := EscapeEach(s[1..]);
      EscapeEachWellEscaped(s[1..]);
      assert EscapeEach(s) == EscapeChar(s[0]) + rest;
      if IsSpecial(s[0]) {
        EntityThenText(s[0], rest);
      } else {
        PlainThenText(s[0], rest);
      }
      assert s == [s[0]] + s[1..];
    }
  }

  lemma EscapeEachCons(c: char, u: string)
    ensures EscapeEach([c] + u) == EscapeChar(c) + EscapeEach(u)
  {
    assert ([c] + u)[0] == c;
    assert ([c] + u)[1..] == u;
  }

  /** Unescaping is also a right inverse on well-escaped text. */
  lemma {:induction false} UnescapeThenEscape(t: string)
    requires WellEscaped(t)
    ensures EscapeEach(Unescape(t)) == t
    decreases |t|
  {
    if |t| > 0 {
      match EntityPrefix(t)
      case Some(entry) =>
        UnescapeThenEscape(t[|entry.1|..]);
        EntityRoundTrip(t, entry);
      case None =>
        UnescapeThenEscape(t[1..]);
        PlainRoundTrip(t);
    }
  }

  lemma EntityRoundTrip(t: string, entry: (char, string))
    requires |t| > 0 && EntityPrefix(t) == Some(entry)
    requires EscapeEach(Unescape(t[|entry.1|..])) == t[|entry.1|..]
    ensures EscapeEach(Unescape(t)) == t
  {
    var k := |entry.1|;
    var rest := t[k..];
    EscapeEachCons(entry.0, Unescape(rest));
    EscapeCharOfEntry(entry);
    assert t[..k] == entry.1;
    SplitAt(t, k);
    calc {
      EscapeEach(Unescape(t));
      EscapeEach([entry.0] + Unescape(rest));
      EscapeChar(entry.0) + EscapeEach(Unescape(rest));
      entry.1 + rest;
    }
  }

  lemma PlainRoundTrip(t: string)
    requires |t| > 0 && EntityPrefix(t).None? && WellEscaped(t)
    requires EscapeEach(Unescape(t[1..])) == t[1..]
    ensures EscapeEach(Unescape(t)) == t
  {
    var rest := t[1..];
    assert !IsSpecial(t[0]);
    assert Unescape(t) == [t[0]] + Unescape(rest);
    EscapeEachCons(t[0], Unescape(rest));
    assert EscapeChar(t[0]) == [t[0]];
    SplitAt(t, 1);
    assert t[..1] == [t[0]];
    calc {
      EscapeEach(Unescape(t));
      EscapeEach([t[0]] + Unescape(rest));
      EscapeChar(t[0]) + EscapeEach(Unescape(rest));
      [t[0]] + rest;
    }
  }

  lemma SplitAt(t: string, k: nat)
    requires k <= |t|
    ensures t == t[..k] + t[k..]
  {
  }

  lemma EscapeCharOfEntry(entry: (char, string))
    requires entry in Replacements
    ensures EscapeChar(entry.0) == entry.1
  {
  }

  /** Every character at or after a well-escaped position is either an entity
      character or not special: none of `< > " ' / \` survives. */
  lemma {:induction false} WellEscapedHasNoMarkup(t: string, i: nat)
    requires WellEscaped(t) && i < |t|
    ensures t[i] !in "><\"'/\\"
    ensures t[i] == '&' ==> EntityPrefix(t[i..]).Some?
    decreases |t|
  {
    match EntityPrefix(t)
    case Some(entry) =>
      var e := entry.1;
      if i < |e| {
        assert t[i] == e[i];
        EntityCharacters(entry, i);
      } else {
        WellEscapedHasNoMarkup(t[|e|..], i - |e|);
        assert t[|e|..][i - |e|..] == t[i..];
      }
    case None =>
      if i == 0 {
      } else {
        WellEscapedHasNoMarkup(t[1..], i - 1);
        assert t[1..][i - 1..] == t[i..];
      }
  }

  /** An entity holds no markup character, and `&` only at its start. */
  lemma EntityCharacters(entry: (char, string), i: nat)
    requires entry in Replacements && i < |entry.1|
    ensures entry.1[i] !in "><\"'/\\"
    ensures i > 0 ==> entry.1[i] != '&'
  {
  }

  /** The escaped content holds none of `< > " ' / \`, and each `&` in it
      begins one of the seven entities; unescaping gives the content back. */
  lemma EscapeContentSafe(content: string)
    ensures var out := EscapeContent(content);
      && (forall i :: 0 <= i < |out| ==> out[i] !in "><\"'/\\")
      && (forall i :: 0 <= i < |out| && out[i] == '&' ==> EntityPrefix(out[i..]).Some?)
      && Unescape(out) == content
  {
    EscapeContentIsPerCharacter(content);
    var out := EscapeContent(content);
    EscapeEachWellEscaped(content);
    forall i | 0 <= i < |out|
      ensures out[i] !in "><\"'/\\"
      ensures out[i] == '&' ==> EntityPrefix(out[i..]).Some?
    {
      WellEscapedHasNoMarkup(out, i);
    }
  }

  // ---------------------------------------------------------------------
  // Locating tagged content

  /** Smallest `j >= k` at which `end` occurs, scanning only across
      characters `.` matches (the lazy `.+?` before the end tag). */
  function LazyEnd(s: string, k: nat, end: string): (r: Option<nat>)
    ensures r.Some? ==> k <= r.value && OccursAt(s, end, r.value)
    decreases |s| - k
  {
    if k > |s| then None
    else if OccursAt(s, end, k) then Some(k)
    else if k < |s| && !IsLineTerminator(s[k]) then LazyEnd(s, k + 1, end)
    else None
  }

  /** Length of the match of `START.+?END` at the start of `s`, if any. */
  function TaggedMatch(s: string, start: string, end: string): (r: Option<nat>)
    ensures r.Some? ==> |start| + 1 + |end| <= r.value <= |s|
    ensures r.Some? ==> OccursAt(s, start, 0) && OccursAt(s, end, r.value - |end|)
  {
    if !OccursAt(s, start, 0) || |s| <= |start| || IsLineTerminator(s[|start|]) then None
    else
      match LazyEnd(s, |start| + 1, end)
      case Some(j) => Some(j + |end|)
      case None => None
  }

  /** The successive `group()`s of the start-tag-with-content pattern. */
  function TaggedGroups(s: string, start: string, end: string): seq<string>
    decreases |s|
  {
    if |s| == 0 then []
    else
      match TaggedMatch(s, start, end)
      case Some(len) => [s[..len]] + TaggedGroups(s[len..], start, end)
      case None => TaggedGroups(s[1..], start, end)
  }

  /** `extractContent`: every occurrence of the start tag, then of the end
      tag, removed from the matched text. */
  function ExtractContent(group: string, start: string, end: string): string
  {
    RemoveAll(RemoveAll(group, start), end)
  }

  /** Extraction changes the text exactly when a tag occurs in it. */
  lemma ExtractContentIdentityIff(group: string, start: string, end: string)
    requires |start| > 0 && |end| > 0
    ensures ExtractContent(group, start, end) == group <==> Absent(group, start) && Absent(group, end)
  {
    var once := RemoveAll(group, start);
    if Absent(group, start) {
      ReplaceAllAbsent(group, start, []);
      assert once == group;
      RemoveAllIdentityIff(group, end);
    } else {
      var i: nat :| i <= |group| && OccursAt(group, start, i);
      RemoveAllShorter(group, start, i);
      RemoveAllNotLonger(once, end);
    }
  }

  /** Extraction from one element gives back its content, when neither tag
      can be found inside it (nor straddling the content and the end tag). */
  lemma ExtractContentOfElement(start: string, c: string, end: string)
    requires |start| > 0 && |end| > 0
    requires Absent(c + end, start)
    requires forall i: nat :: i < |c| ==> !OccursAt(c + end, end, i)
    ensures ExtractContent(start + c + end, start, end) == c
  {
    var s := start + c + end;
    assert s[..|start|] == start;
    assert OccursAt(s, start, 0);
    assert s[|start|..] == c + end;
    ReplaceAllAbsent(c + end, start, []);
    assert ReplaceAll(s, start, []) == [] + ReplaceAll(c + end, start, []);
    assert RemoveAll(s, start) == c + end;
    ReplaceAllFirstAtEnd(c, end, []);
    assert RemoveAll(c + end, end) == c + [];
  }

  // ---------------------------------------------------------------------
  // Rewriting the document

  /** The source's loop: for each group found in the ORIGINAL document,
      extract its content, escape it, and `String.replace` every occurrence
      of the content in the whole current document. */
  function ReplaceContents(doc: string, groups: seq<string>, start: string, end: string,
                           f: string -> string): string
    decreases |groups|
  {
    if |groups| == 0 then doc
    else
      var content := ExtractContent(groups[0], start, end);
      ReplaceContents(ReplaceAll(doc, content, f(content)), groups[1..], start, end, f)
  }

  /** `escapeHtmlBetweenXmlTags` as written. */
  function EscapeHtmlBetweenXmlTags(xml: string, start: string, end: string): string
  {
    ReplaceContents(xml, TaggedGroups(xml, start, end), start, end, EscapeContent)
  }

  /** Without a start tag there is no match, and the document is returned
      unchanged: the tag-free case of `NoGroupsUnchanged`. */
  lemma {:induction false} NoStartTagNoGroups(xml: string, start: string, end: string)
    requires Absent(xml, start)
    ensures TaggedGroups(xml, start, end) == []
    ensures EscapeHtmlBetweenXmlTags(xml, start, end) == xml
    ensures EscapeTaggedContents(xml, start, end) == xml
    decreases |xml|
  {
    if |xml| > 0 {
      assert !OccursAt(xml, start, 0);
      forall i: nat | i <= |xml[1..]|
        ensures !OccursAt(xml[1..], start, i)
      {
        OccursAtShift(xml, start, i);
      }
      NoStartTagNoGroups(xml[1..], start, end);
    }
  }

  lemma {:induction false} LazyEndFirst(s: string, k: nat, end: string, j: nat)
    requires k <= j && OccursAt(s, end, j)
    requires forall m: nat :: k <= m < j ==> !OccursAt(s, end, m) && !IsLineTerminator(s[m])
    ensures LazyEnd(s, k, end) == Some(j)
    decreases j - k
  {
    if k < j {
      LazyEndFirst(s, k + 1, end, j);
    }
  }

  /** A single element `start + c + end` is one match of the pattern when
      its content is non-empty, on one line, and does not already hold the
      end tag. */
  lemma TaggedMatchElement(start: string, c: string, end: string)
    requires |c| > 0
    requires forall m :: 0 <= m < |c| ==> !IsLineTerminator(c[m])
    requires forall i: nat :: i < |c| ==> !OccursAt(c + end, end, i)
    ensures TaggedMatch(start + c + end, start, end) == Some(|start + c + end|)
  {
    var s := start + c + end;
    var n := |start| + |c|;
    assert s[..|start|] == start;
    assert OccursAt(s, start, 0);
    assert s[n..n + |end|] == end;
    assert s[|start|..] == c + end;
    forall m: nat | |start| + 1 <= m < n
      ensures !OccursAt(s, end, m) && !IsLineTerminator(s[m])
    {
      assert s[m] == c[m - |start|];
      if OccursAt(s, end, m) {
        assert s[|start|..][m - |start|..m - |start| + |end|] == s[m..m + |end|];
        assert OccursAt(c + end, end, m - |start|);
      }
    }
    assert s[|start|] == c[0];
    LazyEndFirst(s, |start| + 1, end, n);
  }

  /** Such an element is the one group found in it. */
  lemma TaggedGroupsElement(start: string, c: string, end: string)
    requires |c| > 0
    requires forall m :: 0 <= m < |c| ==> !IsLineTerminator(c[m])
    requires forall i: nat :: i < |c| ==> !OccursAt(c + end, end, i)
    ensures TaggedGroups(start + c + end, start, end) == [start + c + end]
  {
    var s := start + c + end;
    TaggedMatchElement(start, c, end);
    assert s[..|s|] == s;
    assert s[|s|..] == [];
  }

  /** On one element, the source's rewriting replaces the content's text
      wherever it occurs in the document, tags included. */
  lemma AsWrittenOnElement(start: string, c: string, end: string)
    requires |start| > 0 && |end| > 0 && |c| > 0
    requires forall m :: 0 <= m < |c| ==> !IsLineTerminator(c[m])
    requires forall i: nat :: i < |c| ==> !OccursAt(c + end, end, i)
    requires Absent(c + end, start)
    ensures EscapeHtmlBetweenXmlTags(start + c + end, start, end)
         == ReplaceAll(start + c + end, c, EscapeContent(c))
  {
    ReplaceContentsOnElement(start, c, end, EscapeContent);
  }

  lemma ReplaceContentsOnElement(start: string, c: string, end: string, f: string -> string)
    requires |start| > 0 && |end| > 0 && |c| > 0
    requires forall m :: 0 <= m < |c| ==> !IsLineTerminator(c[m])
    requires forall i: nat :: i < |c| ==> !OccursAt(c + end, end, i)
    requires Absent(c + end, start)
    ensures var s := start + c + end;
      ReplaceContents(s, TaggedGroups(s, start, end), start, end, f) == ReplaceAll(s, c, f(c))
  {
    var s := start + c + end;
    TaggedGroupsElement(start, c, end);
    ExtractContentOfElement(start, c, end);
    assert [s][1..] == [];
    assert [s][0] == s;
    calc {
      ReplaceContents(s, [s], start, end, f);
      ReplaceContents(ReplaceAll(s, c, f(c)), [], start, end, f);
    }
  }


  lemma OccursAtChar(s: string, p: string, i: nat, k: nat)
    requires OccursAt(s, p, i) && k < |p|
    ensures s[i + k] == p[k]
  {
    assert s[i..i + |p|][k] == s[i + k];
  }

  /** The content `/` of one element is replaced everywhere in the document,
      including inside its own end tag. */
  lemma AsWrittenCorruptsEndTag(xml: string, start: string, end: string)
    requires xml == "<c>/</c>" && start == "<c>" && end == "</c>"
    ensures EscapeHtmlBetweenXmlTags(xml, start, end) == "<c>&#47;<&#47;c>"
  {
    var c := "/";
    var e := EscapeContent(c);
    assert e == "&#47;" by {
      EscapeOneChar('/');
    }
    OneCharElementWellFormed('/');
    assert start + c + end == xml;
    AsWrittenOnElement(start, c, end);
    ReplaceAllSlash(xml, c);
    assert EscapeHtmlBetweenXmlTags(xml, start, end) == ReplaceAll(xml, c, e);
  }

  /** A one-character content other than `<` and a line terminator, followed
      by the end tag `</c>`: the lazy match cannot end early, and no start
      tag begins inside it. */
  lemma OneCharElementWellFormed(ch: char)
    requires ch != '<' && !IsLineTerminator(ch)
    ensures forall m :: 0 <= m < |[ch]| ==> !IsLineTerminator([ch][m])
    ensures forall i: nat :: i < |[ch]| ==> !OccursAt([ch] + "</c>", "</c>", i)
    ensures Absent([ch] + "</c>", "<c>")
  {
    var ce := [ch] + "</c>";
    forall i: nat | i <= |ce|
      ensures !OccursAt(ce, "<c>", i) && (i < 1 ==> !OccursAt(ce, "</c>", i))
    {
      if OccursAt(ce, "<c>", i) {
        OccursAtChar(ce, "<c>", i, 0);
        OccursAtChar(ce, "<c>", i, 1);
      }
      if i < 1 && OccursAt(ce, "</c>", i) {
        OccursAtChar(ce, "</c>", i, 0);
      }
    }
  }

  /** The chained replacements on a one-character content give that
      character's own entity. */
  lemma EscapeOneChar(ch: char)
    ensures EscapeContent([ch]) == EscapeChar(ch)
  {
    EscapeContentIsPerCharacter([ch]);
    EscapeContentSingle(ch);
    assert EscapeEach([ch]) == EscapeChar(ch) + EscapeEach([]);
  }

  lemma ReplaceAllSlash(xml: string, c: string)
    requires xml == "<c>/</c>" && c == "/"
    ensures ReplaceAll(xml, c, "&#47;") == "<c>&#47;<&#47;c>"
  {
    assert xml == "<c>" + ['/'] + "<" + ['/'] + "c>";
    ReplaceCharTwice("<c>", "<", "c>", '/', "&#47;");
  }

  /** Replacing a character that occurs exactly twice. */
  lemma ReplaceCharTwice(a: string, b: string, d: string, c: char, r: string)
    requires c !in a && c !in b && c !in d
    ensures ReplaceAll(a + [c] + b + [c] + d, [c], r) == a + r + b + r + d
  {
    ReplaceCharAppend(a + [c] + b + [c], d, c, r);
    ReplaceCharAppend(a + [c] + b, [c], c, r);
    ReplaceCharAppend(a + [c], b, c, r);
    ReplaceCharAppend(a, [c], c, r);
    CharUntouched(a, c, r);
    CharUntouched(b, c, r);
    CharUntouched(d, c, r);
    CharReplaced(c, r);
  }

  lemma CharUntouched(s: string, c: char, r: string)
    requires c !in s
    ensures ReplaceAll(s, [c], r) == s
  {
    AbsentChar(s, c);
    ReplaceAllAbsent(s, [c], r);
  }

  lemma CharReplaced(c: char, r: string)
    ensures ReplaceAll([c], [c], r) == r
  {
    assert OccursAt([c], [c], 0);
    assert [c][1..] == [];
    assert ReplaceAll([], [c], r) == [];
    assert r + [] == r;
  }

  /** When two elements carry the same content, the source's rewriting
      replaces that content globally once per element. */
  lemma AsWrittenOnRepeatedElement(start: string, c: string, end: string)
    requires |start| > 0 && |end| > 0 && |c| > 0
    requires forall m :: 0 <= m < |c| ==> !IsLineTerminator(c[m])
    requires forall i: nat :: i < |c| ==> !OccursAt(c + end, end, i)
    requires Absent(c + end, start)
    ensures var one := start + c + end; var e := EscapeContent(c);
      EscapeHtmlBetweenXmlTags(one + one, start, end)
        == ReplaceAll(ReplaceAll(one + one, c, e), c, e)
  {
    ReplaceContentsOnRepeatedElement(start, c, end, EscapeContent);
  }

  lemma ReplaceContentsOnRepeatedElement(start: string, c: string, end: string, f: string -> string)
    requires |start| > 0 && |end| > 0 && |c| > 0
    requires forall m :: 0 <= m < |c| ==> !IsLineTerminator(c[m])
    requires forall i: nat :: i < |c| ==> !OccursAt(c + end, end, i)
    requires Absent(c + end, start)
    ensures var one := start + c + end;
      ReplaceContents(one + one, TaggedGroups(one + one, start, end), start, end, f)
        == ReplaceAll(ReplaceAll(one + one, c, f(c)), c, f(c))
  {
    var one := start + c + end;
    var e := f(c);
    TaggedMatchElement(start, c, end);
    TaggedGroupsElement(start, c, end);
    TaggedGroupsAppend(one, one, start, end);
    ExtractContentOfElement(start, c, end);
    var g := [one, one];
    assert g[1..] == [one] && g[1..][1..] == [];
    calc {
      ReplaceContents(one + one, g, start, end, f);
      ReplaceContents(ReplaceAll(one + one, c, e), [one], start, end, f);
      ReplaceContents(ReplaceAll(ReplaceAll(one + one, c, e), c, e), [], start, end, f);
    }
  }


  /** A match that spans all of `s` is the first group of `s + w`. */
  lemma TaggedGroupsAppend(s: string, w: string, start: string, end: string)
    requires TaggedMatch(s, start, end) == Some(|s|)
    ensures TaggedGroups(s + w, start, end) == [s] + TaggedGroups(w, start, end)
  {
    TaggedMatchPrefix(s, w, start, end);
    assert (s + w)[..|s|] == s;
    assert (s + w)[|s|..] == w;
  }

  /** When two elements carry the same content `&`, the second global
      replacement runs over the already escaped first one and escapes the
      ampersand twice in both elements. */
  lemma AsWrittenEscapesTwice(xml: string, start: string, end: string)
    requires xml == "<c>&</c><c>&</c>" && start == "<c>" && end == "</c>"
    ensures EscapeHtmlBetweenXmlTags(xml, start, end) == "<c>&amp;amp;</c><c>&amp;amp;</c>"
  {
    var tail := "amp;";
    AmpersandElementFacts(start, tail, end);
    TwoAmpersandElements(xml, start, end);
    RepeatedElementEscapedTwice(start, '&', tail, end);
    TwiceEscapedElements(start, tail, end);
  }

  lemma TwoAmpersandElements(xml: string, start: string, end: string)
    requires xml == "<c>&</c><c>&</c>" && start == "<c>" && end == "</c>"
    ensures xml == (start + ['&'] + end) + (start + ['&'] + end)
  {
  }

  lemma AmpersandElementFacts(start: string, tail: string, end: string)
    requires start == "<c>" && tail == "amp;" && end == "</c>"
    ensures '&' !in start && '&' !in tail && '&' !in end
    ensures forall m :: 0 <= m < |['&']| ==> !IsLineTerminator(['&'][m])
    ensures forall i: nat :: i < |['&']| ==> !OccursAt(['&'] + end, end, i)
    ensures Absent(['&'] + end, start)
    ensures EscapeContent(['&']) == ['&'] + tail
  {
    assert EscapeContent(['&']) == ['&'] + tail by {
      EscapeOneChar('&');
    }
    OneCharElementWellFormed('&');
  }

  /** The as-written escaper on two elements with the same one-character
      content `ch`, whose escape is `ch` followed by `tail`. */
  lemma RepeatedElementEscapedTwice(start: string, ch: char, tail: string, end: string)
    requires |start| > 0 && |end| > 0
    requires ch !in start && ch !in end && ch !in tail
    requires forall m :: 0 <= m < |[ch]| ==> !IsLineTerminator([ch][m])
    requires forall i: nat :: i < |[ch]| ==> !OccursAt([ch] + end, end, i)
    requires Absent([ch] + end, start)
    requires EscapeContent([ch]) == [ch] + tail
    ensures var one := start + [ch] + end;
      var twice := start + ([ch] + tail) + tail + end;
      EscapeHtmlBetweenXmlTags(one + one, start, end) == twice + twice
  {
    AsWrittenOnRepeatedElement(start, [ch], end);
    RepeatedReplace(start, ch, tail, end);
  }


  lemma TwiceEscapedElements(start: string, tail: string, end: string)
    requires start == "<c>" && tail == "amp;" && end == "</c>"
    ensures var twice := start + (['&'] + tail) + tail + end;
      twice + twice == "<c>&amp;amp;</c><c>&amp;amp;</c>"
  {
    assert start + (['&'] + tail) + tail + end == "<c>&amp;amp;</c>";
  }

  lemma EscapedAmpersandElements(start: string, e: string, end: string)
    requires start == "<c>" && e == "&amp;" && end == "</c>"
    ensures start + e + end + (start + e + end) == "<c>&amp;</c><c>&amp;</c>"
  {
    var half := start + e + end;
    assert half == "<c>&amp;</c>";
  }

  /** Two elements with the same one-character content, replaced twice
      globally: every occurrence is expanded in both rounds. */
  lemma RepeatedReplace(start: string, ch: char, tail: string, end: string)
    requires ch !in start && ch !in end && ch !in tail
    ensures var e := [ch] + tail;
      var one := start + [ch] + end;
      var twice := start + e + tail + end;
      ReplaceAll(ReplaceAll(one + one, [ch], e), [ch], e) == twice + twice
  {
    var e := [ch] + tail;
    var one := start + [ch] + end;
    ReplaceCharOnce(start, end, ch, e);
    ReplaceDoubled(one, ch, e, start + e + end);
    var two := start + e + end;
    assert two == start + [ch] + (tail + end);
    ReplaceCharOnce(start, tail + end, ch, e);
    ReplaceDoubled(two, ch, e, start + e + (tail + end));
    assert start + e + (tail + end) == start + e + tail + end;
  }

  /** Replacing a character in a doubled text doubles the result. */
  lemma ReplaceDoubled(h: string, c: char, r: string, e: string)
    requires ReplaceAll(h, [c], r) == e
    ensures ReplaceAll(h + h, [c], r) == e + e
  {
    ReplaceCharAppend(h, h, c, r);
  }


  /** Replacing a character that occurs exactly once. */
  lemma ReplaceCharOnce(a: string, d: string, c: char, r: string)
    requires c !in a && c !in d
    ensures ReplaceAll(a + [c] + d, [c], r) == a + r + d
  {
    ReplaceCharAppend(a + [c], d, c, r);
    ReplaceCharAppend(a, [c], c, r);
    CharUntouched(a, c, r);
    CharUntouched(d, c, r);
    CharReplaced(c, r);
  }

  lemma {:induction false} LazyEndPrefix(s: string, w: string, k: nat, end: string)
    requires LazyEnd(s, k, end).Some?
    ensures LazyEnd(s + w, k, end) == LazyEnd(s, k, end)
    decreases |s| - k
  {
    if k + |end| <= |s| {
      assert (s + w)[k..k + |end|] == s[k..k + |end|];
    }
    if !OccursAt(s, end, k) {
      assert k < |s| && (s + w)[k] == s[k];
      LazyEndPrefix(s, w, k + 1, end);
    }
  }

  /** A match found in `s` is still found, unchanged, in `s + w`. */
  lemma TaggedMatchPrefix(s: string, w: string, start: string, end: string)
    requires TaggedMatch(s, start, end).Some?
    ensures TaggedMatch(s + w, start, end) == TaggedMatch(s, start, end)
  {
    assert (s + w)[..|start|] == s[..|start|];
    assert (s + w)[|start|] == s[|start|];
    LazyEndPrefix(s, w, |start| + 1, end);
  }

  // ---------------------------------------------------------------------
  // The evidently intended rewriting

  /** Each matched element keeps its tags and only the text between them is
      rewritten by `f`; nothing outside a match changes. */
  function RewriteTagged(xml: string, start: string, end: string, f: string -> string): string
    decreases |xml|
  {
    if |xml| == 0 then []
    else
      match TaggedMatch(xml, start, end)
      case Some(len) =>
        start + f(xml[|start|..len - |end|]) + end
          + RewriteTagged(xml[len..], start, end, f)
      case None => [xml[0]] + RewriteTagged(xml[1..], start, end, f)
  }

  /** The corrected `escapeHtmlBetweenXmlTags`: every match's content escaped
      in place, once. */
  function EscapeTaggedContents(xml: string, start: string, end: string): string
  {
    RewriteTagged(xml, start, end, EscapeContent)
  }

  /** A document without matches is left unchanged. */
  lemma {:induction false} RewriteTaggedNoMatch(xml: string, start: string, end: string, f: string -> string)
    requires TaggedGroups(xml, start, end) == []
    ensures RewriteTagged(xml, start, end, f) == xml
    decreases |xml|
  {
    if |xml| > 0 {
      RewriteTaggedNoMatch(xml[1..], start, end, f);
      assert xml == [xml[0]] + xml[1..];
    }
  }

  lemma RewriteTaggedStep(xml: string, start: string, end: string, f: string -> string, len: nat)
    requires TaggedMatch(xml, start, end) == Some(len)
    ensures RewriteTagged(xml, start, end, f)
         == start + f(xml[|start|..len - |end|]) + end + RewriteTagged(xml[len..], start, end, f)
  {
  }

  /** A document that starts with the whole element `s`. */
  lemma RewriteTaggedFirst(s: string, w: string, start: string, end: string, f: string -> string)
    requires TaggedMatch(s, start, end) == Some(|s|)
    ensures RewriteTagged(s + w, start, end, f)
         == start + f(s[|start|..|s| - |end|]) + end + RewriteTagged(w, start, end, f)
  {
    TaggedMatchPrefix(s, w, start, end);
    SliceOfAppend(s, w, |start|, |s| - |end|);
    assert (s + w)[|s|..] == w;
    RewriteTaggedStepAt(s + w, start, end, f, |s|, s[|start|..|s| - |end|], w);
  }

  lemma RewriteTaggedStepAt(xml: string, start: string, end: string, f: string -> string, len: nat,
                            content: string, rest: string)
    requires TaggedMatch(xml, start, end) == Some(len)
    requires content == xml[|start|..len - |end|] && rest == xml[len..]
    ensures RewriteTagged(xml, start, end, f) == start + f(content) + end + RewriteTagged(rest, start, end, f)
  {
    RewriteTaggedStep(xml, start, end, f, len);
  }

  lemma SliceOfAppend(s: string, w: string, i: nat, j: nat)
    requires i <= j <= |s|
    ensures (s + w)[i..j] == s[i..j]
  {
  }

  /** A whole element on its own is rewritten to its tags around `f` of its content. */
  lemma RewriteTaggedWhole(s: string, start: string, end: string, f: string -> string)
    requires TaggedMatch(s, start, end) == Some(|s|)
    ensures RewriteTagged(s, start, end, f) == start + f(s[|start|..|s| - |end|]) + end
  {
    var head := start + f(s[|start|..|s| - |end|]) + end;
    RewriteTaggedStep(s, start, end, f, |s|);
    RewriteTaggedEmpty(s[|s|..], start, end, f);
    AppendEmpty(head);
  }

  lemma AppendEmpty(head: string)
    ensures head + [] == head
  {
  }

  lemma RewriteTaggedEmpty(xml: string, start: string, end: string, f: string -> string)
    requires |xml| == 0
    ensures RewriteTagged(xml, start, end, f) == []
  {
  }

  /** A document that starts with a whole element is rewritten element first. */
  lemma RewriteTaggedAppend(s: string, w: string, start: string, end: string, f: string -> string)
    requires TaggedMatch(s, start, end) == Some(|s|)
    ensures RewriteTagged(s + w, start, end, f)
         == RewriteTagged(s, start, end, f) + RewriteTagged(w, start, end, f)
  {
    RewriteTaggedFirst(s, w, start, end, f);
    RewriteTaggedWhole(s, start, end, f);
  }

  /** On a single element only the content is rewritten; both tags stay. */
  lemma RewriteTaggedElement(start: string, c: string, end: string, f: string -> string)
    requires |c| > 0
    requires forall m :: 0 <= m < |c| ==> !IsLineTerminator(c[m])
    requires forall i: nat :: i < |c| ==> !OccursAt(c + end, end, i)
    ensures RewriteTagged(start + c + end, start, end, f) == start + f(c) + end
  {
    var s := start + c + end;
    TaggedMatchElement(start, c, end);
    assert s[|start|..|s| - |end|] == c;
    RewriteTaggedWhole(s, start, end, f);
  }

  /** The corrected rewriting leaves a document without matches unchanged. */
  lemma EscapeTaggedContentsNoMatch(xml: string, start: string, end: string)
    requires TaggedGroups(xml, start, end) == []
    ensures EscapeTaggedContents(xml, start, end) == xml
  {
    RewriteTaggedNoMatch(xml, start, end, EscapeContent);
  }

  /** Whenever the pattern finds no match, both the code as written and the
      corrected rewriting return the document unchanged. */
  lemma NoGroupsUnchanged(xml: string, start: string, end: string)
    requires TaggedGroups(xml, start, end) == []
    ensures EscapeHtmlBetweenXmlTags(xml, start, end) == xml
    ensures EscapeTaggedContents(xml, start, end) == xml
  {
    EscapeTaggedContentsNoMatch(xml, start, end);
  }

  /** On a single element the corrected rewriting escapes exactly its
      content and keeps both tags. */
  lemma EscapeTaggedContentsElement(start: string, c: string, end: string)
    requires |c| > 0
    requires forall m :: 0 <= m < |c| ==> !IsLineTerminator(c[m])
    requires forall i: nat :: i < |c| ==> !OccursAt(c + end, end, i)
    ensures EscapeTaggedContents(start + c + end, start, end)
         == start + EscapeContent(c) + end
  {
    RewriteTaggedElement(start, c, end, EscapeContent);
  }

  /** Two equal elements are each escaped once. */
  lemma CorrectedOnRepeatedElement(start: string, c: string, end: string)
    requires |c| > 0
    requires forall m :: 0 <= m < |c| ==> !IsLineTerminator(c[m])
    requires forall i: nat :: i < |c| ==> !OccursAt(c + end, end, i)
    ensures var one := start + c + end; var e := EscapeContent(c);
      EscapeTaggedContents(one + one, start, end) == start + e + end + (start + e + end)
  {
    var one := start + c + end;
    TaggedMatchElement(start, c, end);
    RewriteTaggedAppend(one, one, start, end, EscapeContent);
    RewriteTaggedElement(start, c, end, EscapeContent);
  }

  /** On the document `<c>/</c>` the intended rewriting keeps the end tag. */
  lemma CorrectedKeepsEndTag(xml: string, start: string, end: string)
    requires xml == "<c>/</c>" && start == "<c>" && end == "</c>"
    ensures EscapeTaggedContents(xml, start, end) == "<c>&#47;</c>"
  {
    var c := "/";
    assert EscapeContent(c) == "&#47;" by {
      EscapeOneChar('/');
    }
    OneCharElementWellFormed('/');
    assert start + c + end == xml;
    EscapeTaggedContentsElement(start, c, end);
    SlashElementEscaped(start, EscapeContent(c), end);
  }

  lemma SlashElementEscaped(start: string, e: string, end: string)
    requires start == "<c>" && e == "&#47;" && end == "</c>"
    ensures start + e + end == "<c>&#47;</c>"
  {
  }

  /** On the document `<c>&</c><c>&</c>` the intended rewriting escapes each
      ampersand once. */
  lemma CorrectedEscapesOnce(xml: string, start: string, end: string)
    requires xml == "<c>&</c><c>&</c>" && start == "<c>" && end == "</c>"
    ensures EscapeTaggedContents(xml, start, end) == "<c>&amp;</c><c>&amp;</c>"
  {
    OneCharElementWellFormed('&');
    var c := "&";
    assert (start + c + end) + (start + c + end) == xml;
    CorrectedOnRepeatedElement(start, c, end);
    EscapeOneChar('&');
    EscapedAmpersandElements(start, EscapeContent(c), end);
  }
}
