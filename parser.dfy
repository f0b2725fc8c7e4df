/** How `executeCommand` in server.js reads the parts of a command the
    validator accepted: the INIT name, the CREATE column list and primary key,
    the INSERT columns and values, the FIND options, and the DELETE and UPDATE
    conditions. Each reader follows the regular expression or the string calls
    the source uses, including the cases where the source throws. */
module Parser {
  import opened JsString
  import opened Coercion
  import Syntax

  /** A reading: the value read, or the message of what the source throws. */
  datatype Parse<T> = Parsed(value: T) | Fails(message: string)

  /** A WHERE condition: field, operator, and the coerced value (absent where
      the source leaves it undefined). */
  datatype Condition = Condition(field: string, operator: string, value: Option<Value>)

  /** The message of the TypeError thrown when a property of `null` or
      `undefined` is read. */
  function CannotRead(holder: string, property: string): string {
    "Cannot read properties of " + holder + " (reading '" + property + "')"
  }

  /** `\bKW\b` at `i`, the keyword in any casing. */
  predicate BoundedWordAt(s: string, i: nat, kw: string) {
    KeywordAt(s, i, kw) && (i == 0 || !IsWordChar(s[i - 1])) && (i + |kw| == |s| || !IsWordChar(s[i + |kw|]))
  }

  /** `s.search(/\bKW\b/ui)` from `i` on: the first position the word stands at. */
  function SearchWord(s: string, kw: string, i: nat): (r: Option<nat>)
    requires i <= |s|
    ensures r.Some? ==> i <= r.value && BoundedWordAt(s, r.value, kw)
    ensures r.Some? ==> forall k :: i <= k < r.value ==> !BoundedWordAt(s, k, kw)
    ensures r.None? ==> forall k :: i <= k <= |s| ==> !BoundedWordAt(s, k, kw)
    decreases |s| - i
  {
    if BoundedWordAt(s, i, kw) then Some(i)
    else if i == |s| then None
    else SearchWord(s, kw, i + 1)
  }

  /** The pieces of a comma-separated list, each trimmed. */
  function TrimAll(pieces: seq<string>): (r: seq<string>)
    ensures |r| == |pieces|
    ensures forall k :: 0 <= k < |r| ==> r[k] == Trim(pieces[k])
  {
    if pieces == [] then [] else [Trim(pieces[0])] + TrimAll(pieces[1..])
  }

  /** Every piece trimmed and coerced with `clean`. */
  function CleanAll(pieces: seq<string>): (r: seq<Value>)
    ensures |r| == |pieces|
  {
    if pieces == [] then [] else [Clean(Trim(pieces[0]))] + CleanAll(pieces[1..])
  }

  lemma {:induction false} CleanAllAppend(xs: seq<string>, ys: seq<string>)
    ensures CleanAll(xs + ys) == CleanAll(xs) + CleanAll(ys)
  {
    if xs == [] {
      assert xs + ys == ys;
    } else {
      assert (xs + ys)[1..] == xs[1..] + ys;
      CleanAllAppend(xs[1..], ys);
    }
  }

  lemma CleanAllSnoc(xs: seq<string>, k: nat)
    requires k < |xs|
    ensures CleanAll(xs[..k + 1]) == CleanAll(xs[..k]) + [Clean(Trim(xs[k]))]
  {
    assert xs[..k + 1] == xs[..k] + [xs[k]];
    CleanAllAppend(xs[..k], [xs[k]]);
  }

  // ---------------------------------------------------------------- INIT

  /** `commandParts[1].split(';').shift()`: the name is the second piece up to
      its first `;`. With no second piece the source reads `split` of undefined. */
  function DatabaseName(parts: seq<string>): (r: Parse<string>)
    ensures r.Fails? <==> |parts| < 2
    ensures r.Fails? ==> r.message == CannotRead("undefined", "split")
    ensures r.Parsed? ==> ';' !in r.value && |r.value| <= |parts[1]| && parts[1][..|r.value|] == r.value
    ensures r.Parsed? && |r.value| < |parts[1]| ==> parts[1][|r.value|] == ';'
  {
    if |parts| < 2 then Fails(CannotRead("undefined", "split"))
    else
      SplitHead(parts[1], ';');
      Parsed(Split(parts[1], ';')[0])
  }

  // ---------------------------------------------------------------- CREATE

  /** `command.substring(indexOf('(') + 1, lastIndexOf(')'))`. */
  function ColumnListText(command: string): string {
    Substring(command, IndexOf(command, "(") + 1, LastIndexOfChar(command, ')'))
  }

  /** `cleanColumns` (src/handlers/utils/string.js, not part of this model) is
      taken to cut the list at commas and trim each entry. */
  function CleanColumns(text: string): seq<string> {
    TrimAll(Split(text, ','))
  }

  /** The entry's third space-separated word is `PRIMARY_KEY`, exactly. */
  predicate IsKeyEntry(entry: string) {
    var words := Split(Trim(entry), ' ');
    |words| > 2 && words[2] == "PRIMARY_KEY"
  }

  /** The column a key entry names: its first word. */
  function KeyName(entry: string): string {
    Split(Trim(entry), ' ')[0]
  }

  /** The primary key: the name in the last key entry, `id` when there is none. */
  function PrimaryKeyOf(entries: seq<string>): string
    decreases |entries|
  {
    if entries == [] then "id"
    else if IsKeyEntry(entries[|entries| - 1]) then KeyName(entries[|entries| - 1])
    else PrimaryKeyOf(entries[..|entries| - 1])
  }

  /** The entries that are not key entries, in their order. */
  function Unkeyed(entries: seq<string>): seq<string>
    decreases |entries|
  {
    if entries == [] then []
    else Unkeyed(entries[..|entries| - 1]) + (if IsKeyEntry(entries[|entries| - 1]) then [] else [entries[|entries| - 1]])
  }

  /** The primary key is the name in the last key entry, however many there are. */
  lemma {:induction false} PrimaryKeyIsLastKeyEntry(entries: seq<string>, k: nat)
    requires k < |entries| && IsKeyEntry(entries[k])
    requires forall j :: k < j < |entries| ==> !IsKeyEntry(entries[j])
    ensures PrimaryKeyOf(entries) == KeyName(entries[k])
    decreases |entries|
  {
    if k < |entries| - 1 {
      var e := entries[..|entries| - 1];
      assert e[k] == entries[k];
      forall j | k < j < |e| ensures !IsKeyEntry(e[j]) { assert e[j] == entries[j]; }
      PrimaryKeyIsLastKeyEntry(e, k);
    }
  }

  lemma {:induction false} PrimaryKeyDefault(entries: seq<string>)
    requires forall j :: 0 <= j < |entries| ==> !IsKeyEntry(entries[j])
    ensures PrimaryKeyOf(entries) == "id"
    ensures Unkeyed(entries) == entries
    decreases |entries|
  {
    if entries != [] {
      var e := entries[..|entries| - 1];
      forall j | 0 <= j < |e| ensures !IsKeyEntry(e[j]) { assert e[j] == entries[j]; }
      PrimaryKeyDefault(e);
      assert entries == e + [entries[|entries| - 1]];
    }
  }

  /** An entry is kept exactly when it occurs and is not a key entry. */
  lemma {:induction false} UnkeyedMembers(entries: seq<string>, x: string)
    ensures x in Unkeyed(entries) <==> x in entries && !IsKeyEntry(x)
    decreases |entries|
  {
    if entries != [] {
      var e := entries[..|entries| - 1];
      UnkeyedMembers(e, x);
      assert entries == e + [entries[|entries| - 1]];
    }
  }

  /** No key entry survives, so the first occurrence of the current key entry
      in the columns is where the loop stands. */
  lemma {:induction false} FirstOccurrenceOfKeyEntry(kept: seq<string>, rest: seq<string>, x: string)
    requires x !in kept && rest != [] && rest[0] == x
    ensures FirstIndex(kept + rest, x) == |kept|
  {
    var all := kept + rest;
    assert all[|kept|] == x;
    forall k | 0 <= k < |kept| ensures all[k] != x { assert all[k] == kept[k]; }
    FirstIndexIsFirst(all, x, |kept|);
  }

  /** `array.indexOf(x)`: the first index holding `x`, or -1. */
  function FirstIndex(xs: seq<string>, x: string): (r: int)
    ensures -1 <= r < |xs|
    ensures r >= 0 ==> xs[r] == x && forall k :: 0 <= k < r ==> xs[k] != x
    ensures r == -1 ==> x !in xs
  {
    if xs == [] then -1
    else if xs[0] == x then 0
    else var r := FirstIndex(xs[1..], x); if r == -1 then -1 else r + 1
  }

  lemma FirstIndexIsFirst(xs: seq<string>, x: string, i: nat)
    requires i < |xs| && xs[i] == x && forall k :: 0 <= k < i ==> xs[k] != x
    ensures FirstIndex(xs, x) == i
  {
  }

  /** `array.splice(at, 1)`: removes the element at `at`; -1 counts from the end. */
  function SpliceOne(xs: seq<string>, at: int): seq<string> {
    if 0 <= at < |xs| then xs[..at] + xs[at + 1..]
    else if at == -1 && xs != [] then xs[..|xs| - 1]
    else xs
  }

  /** One visit of the CREATE loop, for the primary key: a key entry names it,
      any other entry leaves it as it is. */
  lemma KeyEntryNamesKey(entries: seq<string>, i: nat)
    requires i < |entries|
    ensures PrimaryKeyOf(entries[..i + 1]) ==
              if IsKeyEntry(entries[i]) then KeyName(entries[i]) else PrimaryKeyOf(entries[..i])
  {
    assert entries[..i + 1][..i] == entries[..i];
  }

  lemma UnkeyedSnoc(entries: seq<string>, i: nat)
    requires i < |entries|
    ensures Unkeyed(entries[..i + 1]) == Unkeyed(entries[..i]) + if IsKeyEntry(entries[i]) then [] else [entries[i]]
  {
    assert entries[..i + 1][..i] == entries[..i];
    assert entries[..i + 1][i] == entries[i];
  }

  /** One visit of the CREATE loop, for the columns: a key entry is spliced out
      at its first occurrence, which is where the loop stands; any other entry
      leaves the columns as they are. */
  lemma KeyEntrySpliced(entries: seq<string>, i: nat, columns: seq<string>)
    requires i < |entries| && columns == Unkeyed(entries[..i]) + entries[i..]
    ensures Unkeyed(entries[..i + 1]) + entries[i + 1..] ==
              if IsKeyEntry(entries[i]) then SpliceOne(columns, FirstIndex(columns, entries[i])) else columns
  {
    var element := entries[i];
    var kept := Unkeyed(entries[..i]);
    var later := entries[i + 1..];
    UnkeyedSnoc(entries, i);
    SuffixFrom(entries, i);
    if IsKeyEntry(element) {
      assert Unkeyed(entries[..i + 1]) == kept;
      UnkeyedMembers(entries[..i], element);
      FirstOccurrenceOfKeyEntry(kept, entries[i..], element);
      AroundJoint(kept, element, later);
    } else {
      assert Unkeyed(entries[..i + 1]) == kept + [element];
      Reassociate(kept, [element], later);
    }
  }

  lemma Reassociate<T>(a: seq<T>, b: seq<T>, c: seq<T>)
    ensures (a + b) + c == a + (b + c)
  {
  }

  lemma SuffixFrom<T>(xs: seq<T>, i: nat)
    requires i < |xs|
    ensures xs[i..] == [xs[i]] + xs[i + 1..]
  {
  }

  lemma AroundJoint<T>(a: seq<T>, x: T, b: seq<T>)
    ensures (a + ([x] + b))[..|a|] == a && (a + ([x] + b))[|a| + 1..] == b
  {
  }

  /** The CREATE loop: every entry whose third word is PRIMARY_KEY sets the
      primary key to its first word and is spliced out of the column list. */
  method ExtractPrimaryKey(entries: seq<string>) returns (primaryKey: string, columns: seq<string>)
    ensures primaryKey == PrimaryKeyOf(entries)
    ensures columns == Unkeyed(entries)
  {
    primaryKey := "id";
    columns := entries;
    for i := 0 to |entries|
      invariant primaryKey == PrimaryKeyOf(entries[..i])
      invariant columns == Unkeyed(entries[..i]) + entries[i..]
    {
      var element := entries[i];
      KeyEntryNamesKey(entries, i);
      KeyEntrySpliced(entries, i, columns);
      if IsKeyEntry(element) {
        primaryKey := KeyName(element);
        columns := SpliceOne(columns, FirstIndex(columns, element));
      }
    }
    assert entries[..|entries|] == entries;
  }

  // ---------------------------------------------------------------- INSERT

  /** The columns and values of an INSERT; the columns are absent in the
      positional form. */
  datatype InsertRequest = InsertRequest(columns: Option<seq<Value>>, values: seq<Value>)

  const InsertNeedsValues := "INSERT command requires a VALUES clause with parameters."

  /** Every character of `s[i..j]` is white space. */
  predicate WsSpan(s: string, i: nat, j: nat)
    requires i <= j <= |s|
  {
    forall k :: i <= k < j ==> IsWs(s[k])
  }

  /** No character of `s[i..j]` is a line terminator, so `.` takes each one. */
  predicate DotSpan(s: string, i: nat, j: nat)
    requires i <= j <= |s|
  {
    forall k :: i <= k < j ==> !IsLineTerminator(s[k])
  }

  /** Where the list pattern `\s*.+?\s*(?:,\s*.+?\s*)*` may stand after some
      text: in white space before an item (at the start or after a separating
      comma), inside an item (`.+?`, which takes anything but a line
      terminator), or in white space after an item. */
  datatype ListState = ListState(lead: bool, item: bool, trail: bool)

  const ListStart := ListState(true, false, false)

  /** The places the pattern may stand after one more character `c`. */
  function ListStep(st: ListState, c: char): ListState {
    ListState(
      (st.lead && IsWs(c)) || ((st.item || st.trail) && c == ','),
      (st.lead || st.item) && !IsLineTerminator(c),
      (st.item || st.trail) && IsWs(c))
  }

  /** The places the pattern may stand after reading `s[a..b]`. */
  function ListRun(s: string, a: nat, b: nat): ListState
    requires a <= b <= |s|
    decreases b - a
  {
    if b == a then ListStart else ListStep(ListRun(s, a, b - 1), s[b - 1])
  }

  /** `s[a..b]` matches the list pattern: the pattern can end after an item
      or the white space after it. */
  predicate ListIn(s: string, a: nat, b: nat)
    requires a <= b <= |s|
  {
    var st := ListRun(s, a, b);
    st.item || st.trail
  }

  /** `s[a..b]` matches `\s*.+?\s*`: white space, a non-empty item without
      line terminators, white space. */
  ghost predicate ItemMatch(s: string, a: nat, b: nat)
    requires a <= b <= |s|
  {
    exists j, m :: a <= j < m <= b && WsSpan(s, a, j) && DotSpan(s, j, m) && WsSpan(s, m, b)
  }

  /** `s[a..b]` matches `\s*.+?\s*(?:,\s*.+?\s*)*`, written as the regular
      expression reads: one item, or a list, a comma and one more item. */
  ghost predicate ListMatch(s: string, a: nat, b: nat)
    requires a <= b <= |s|
    decreases b, 1
  {
    ItemMatch(s, a, b) || MoreMatch(s, a, b)
  }

  /** `s[a..b]` is a list, a comma and one more item. */
  ghost predicate MoreMatch(s: string, a: nat, b: nat)
    requires a <= b <= |s|
    decreases b, 0
  {
    exists c :: a <= c < b && s[c] == ',' && ListMatch(s, a, c) && ItemMatch(s, c + 1, b)
  }

  /** The text read so far ends in white space before an item. */
  ghost predicate LeadAt(s: string, a: nat, i: nat)
    requires a <= i <= |s|
  {
    exists q :: a <= q <= i && WsSpan(s, q, i) && (q == a || (s[q - 1] == ',' && ListMatch(s, a, q - 1)))
  }

  /** The text read so far ends inside an item. */
  ghost predicate ItemAt(s: string, a: nat, i: nat)
    requires a <= i <= |s|
  {
    exists j :: a <= j < i && LeadAt(s, a, j) && DotSpan(s, j, i)
  }

  /** The text read so far ends in white space after an item. */
  ghost predicate TrailAt(s: string, a: nat, i: nat)
    requires a <= i <= |s|
  {
    exists m :: a < m < i && ItemAt(s, a, m) && WsSpan(s, m, i)
  }

  /** A list ends inside its last item or in the white space after it. */
  lemma ListMatchEnds(s: string, a: nat, b: nat)
    requires a <= b <= |s|
    ensures ListMatch(s, a, b) <==> ItemAt(s, a, b) || TrailAt(s, a, b)
  {
    if ListMatch(s, a, b) {
      MatchEnds(s, a, b);
    }
    if ItemAt(s, a, b) || TrailAt(s, a, b) {
      EndsMatch(s, a, b);
    }
  }

  lemma MatchEnds(s: string, a: nat, b: nat)
    requires a <= b <= |s| && ListMatch(s, a, b)
    ensures ItemAt(s, a, b) || TrailAt(s, a, b)
  {
    if MoreMatch(s, a, b) {
      var c :| a <= c < b && s[c] == ',' && ListMatch(s, a, c) && ItemMatch(s, c + 1, b);
      LastItemEnds(s, a, c + 1, b);
    } else {
      LastItemEnds(s, a, a, b);
    }
  }

  /** An item from `q`, after the start or a list and a comma, ends the text. */
  lemma LastItemEnds(s: string, a: nat, q: nat, b: nat)
    requires a <= q <= b <= |s| && ItemMatch(s, q, b) && (q == a || (s[q - 1] == ',' && ListMatch(s, a, q - 1)))
    ensures ItemAt(s, a, b) || TrailAt(s, a, b)
  {
    var j, m :| q <= j < m <= b && WsSpan(s, q, j) && DotSpan(s, j, m) && WsSpan(s, m, b);
    LeadOf(s, a, q, j);
    EndsOf(s, a, j, m, b);
  }

  lemma LeadOf(s: string, a: nat, q: nat, j: nat)
    requires a <= q <= j <= |s| && WsSpan(s, q, j) && (q == a || (s[q - 1] == ',' && ListMatch(s, a, q - 1)))
    ensures LeadAt(s, a, j)
  {
  }

  lemma EndsOf(s: string, a: nat, j: nat, m: nat, b: nat)
    requires a <= j < m <= b <= |s| && LeadAt(s, a, j) && DotSpan(s, j, m) && WsSpan(s, m, b)
    ensures ItemAt(s, a, b) || TrailAt(s, a, b)
  {
    assert ItemAt(s, a, m);
    if m < b {
      assert TrailAt(s, a, b);
    }
  }

  lemma EndsMatch(s: string, a: nat, b: nat)
    requires a <= b <= |s| && (ItemAt(s, a, b) || TrailAt(s, a, b))
    ensures ListMatch(s, a, b)
  {
    var m: nat := b;
    if !ItemAt(s, a, b) {
      m :| a < m < b && ItemAt(s, a, m) && WsSpan(s, m, b);
    }
    var j :| a <= j < m && LeadAt(s, a, j) && DotSpan(s, j, m);
    var q :| a <= q <= j && WsSpan(s, q, j) && (q == a || (s[q - 1] == ',' && ListMatch(s, a, q - 1)));
    MatchOf(s, a, q, j, m, b);
  }

  lemma MatchOf(s: string, a: nat, q: nat, j: nat, m: nat, b: nat)
    requires a <= q <= j < m <= b <= |s| && WsSpan(s, q, j) && DotSpan(s, j, m) && WsSpan(s, m, b)
    requires q == a || (s[q - 1] == ',' && ListMatch(s, a, q - 1))
    ensures ListMatch(s, a, b)
  {
    assert ItemMatch(s, q, b);
  }

  lemma LeadStep(s: string, a: nat, i: nat)
    requires a <= i < |s|
    ensures LeadAt(s, a, i + 1) <==> (LeadAt(s, a, i) && IsWs(s[i])) || (s[i] == ',' && ListMatch(s, a, i))
  {
    if LeadAt(s, a, i + 1) {
      var q :| a <= q <= i + 1 && WsSpan(s, q, i + 1) && (q == a || (s[q - 1] == ',' && ListMatch(s, a, q - 1)));
      if q <= i {
        assert WsSpan(s, q, i) && IsWs(s[i]);
      }
    }
    if LeadAt(s, a, i) && IsWs(s[i]) {
      var q :| a <= q <= i && WsSpan(s, q, i) && (q == a || (s[q - 1] == ',' && ListMatch(s, a, q - 1)));
      assert WsSpan(s, q, i + 1);
    }
    if s[i] == ',' && ListMatch(s, a, i) {
      assert WsSpan(s, i + 1, i + 1);
    }
  }

  lemma ItemStep(s: string, a: nat, i: nat)
    requires a <= i < |s|
    ensures ItemAt(s, a, i + 1) <==> (LeadAt(s, a, i) || ItemAt(s, a, i)) && !IsLineTerminator(s[i])
  {
    if ItemAt(s, a, i + 1) {
      var j :| a <= j < i + 1 && LeadAt(s, a, j) && DotSpan(s, j, i + 1);
      if j < i {
        assert DotSpan(s, j, i);
      }
    }
    if LeadAt(s, a, i) && !IsLineTerminator(s[i]) {
      assert DotSpan(s, i, i + 1);
    }
    if ItemAt(s, a, i) && !IsLineTerminator(s[i]) {
      var j :| a <= j < i && LeadAt(s, a, j) && DotSpan(s, j, i);
      assert DotSpan(s, j, i + 1);
    }
  }

  lemma TrailStep(s: string, a: nat, i: nat)
    requires a <= i < |s|
    ensures TrailAt(s, a, i + 1) <==> (ItemAt(s, a, i) || TrailAt(s, a, i)) && IsWs(s[i])
  {
    if TrailAt(s, a, i + 1) {
      var m :| a < m < i + 1 && ItemAt(s, a, m) && WsSpan(s, m, i + 1);
      if m < i {
        assert WsSpan(s, m, i);
      }
    }
    if ItemAt(s, a, i) && IsWs(s[i]) {
      assert i > a by {
        var j :| a <= j < i && LeadAt(s, a, j) && DotSpan(s, j, i);
      }
      assert WsSpan(s, i, i + 1);
    }
    if TrailAt(s, a, i) && IsWs(s[i]) {
      var m :| a < m < i && ItemAt(s, a, m) && WsSpan(s, m, i);
      assert WsSpan(s, m, i + 1);
    }
  }

  /** What each place of the run means, in terms of the regular expression. */
  lemma {:induction false} ListRunMeans(s: string, a: nat, i: nat)
    requires a <= i <= |s|
    ensures ListRun(s, a, i).lead <==> LeadAt(s, a, i)
    ensures ListRun(s, a, i).item <==> ItemAt(s, a, i)
    ensures ListRun(s, a, i).trail <==> TrailAt(s, a, i)
    decreases i - a
  {
    if i == a {
      assert WsSpan(s, a, a);
      assert LeadAt(s, a, a);
    } else {
      ListRunMeans(s, a, i - 1);
      ListMatchEnds(s, a, i - 1);
      LeadStep(s, a, i - 1);
      ItemStep(s, a, i - 1);
      TrailStep(s, a, i - 1);
    }
  }

  /** The run accepts exactly the texts the list pattern matches. */
  lemma ListInIsMatch(s: string, a: nat, b: nat)
    requires a <= b <= |s|
    ensures ListIn(s, a, b) <==> ListMatch(s, a, b)
  {
    ListRunMeans(s, a, b);
    ListMatchEnds(s, a, b);
  }

  /** The first `)` at or after `e` before which the text from `a` is a list. */
  function CloseOf(s: string, a: nat, e: nat): (r: Option<nat>)
    requires a <= e <= |s|
    ensures r.Some? ==> e <= r.value < |s| && s[r.value] == ')' && ListIn(s, a, r.value)
    decreases |s| - e
  {
    if e == |s| then None
    else if s[e] == ')' && ListIn(s, a, e) then Some(e)
    else CloseOf(s, a, e + 1)
  }

  /** A parenthesised group `\((...)\)` at `p` as the INSERT pattern's lazy
      items take it: the text up to the first `)` before which it is a list,
      and the position after that `)`. */
  function ParenGroupAt(s: string, p: nat): (r: Option<(string, nat)>)
    requires p <= |s|
    ensures r.Some? ==> p + 2 < r.value.1 <= |s| && r.value.0 == s[p + 1..r.value.1 - 1]
    ensures r.Some? ==> s[p] == '(' && s[r.value.1 - 1] == ')' && ListIn(s, p + 1, r.value.1 - 1)
  {
    if p + 1 < |s| && s[p] == '(' then
      match CloseOf(s, p + 1, p + 2)
      case Some(e) => Some((s[p + 1..e], e + 1))
      case None => None
    else None
  }

  /** No `)` before the one `CloseOf` finds closes a list, and when it finds
      none, no `)` at all does. */
  lemma {:induction false} CloseOfIsFirst(s: string, a: nat, e: nat)
    requires a <= e <= |s|
    ensures CloseOf(s, a, e).Some? ==> forall y :: e <= y < CloseOf(s, a, e).value && s[y] == ')' ==> !ListIn(s, a, y)
    ensures CloseOf(s, a, e).None? ==> forall y :: e <= y < |s| && s[y] == ')' ==> !ListIn(s, a, y)
    decreases |s| - e
  {
    if e < |s| && !(s[e] == ')' && ListIn(s, a, e)) {
      CloseOfIsFirst(s, a, e + 1);
    }
  }

  /** The group closes at the first `)` that ends a list, and there is no group
      exactly when no `)` does. */
  lemma ParenGroupIsFirst(s: string, p: nat)
    requires p + 1 < |s| && s[p] == '('
    ensures ParenGroupAt(s, p).Some? ==>
              forall y :: p + 1 < y < ParenGroupAt(s, p).value.1 - 1 && s[y] == ')' ==> !ListIn(s, p + 1, y)
    ensures ParenGroupAt(s, p).None? <==> forall y :: p + 1 < y < |s| && s[y] == ')' ==> !ListIn(s, p + 1, y)
  {
    CloseOfIsFirst(s, p + 1, p + 2);
  }

  /** The two groups of `INSERT\s+INTO\s+\w+\s*(?:\((...)\))?\s*(?:VALUES\s*\((...)\))?\s*`
      at its first match, or `None` when there is no match. */
  function InsertGroups(s: string): Option<(Option<string>, Option<string>)> {
    match Syntax.FindInsertHead(s, 0)
    case None => None
    case Some(p) =>
      var i := SkipWs(s, p + 6);
      var j := SkipWs(s, i + 4);
      Some(GroupsAfterTable(s, SkipWs(s, WordEnd(s, j))))
  }

  /** The optional `\((...)\)` group and the optional VALUES group from `a`, past the table name. */
  function GroupsAfterTable(s: string, a: nat): (Option<string>, Option<string>)
    requires a <= |s|
  {
    var g1 := ParenGroupAt(s, a);
    var b := if g1.Some? then SkipWs(s, g1.value.1) else a;
    var g2 := ValuesGroupAt(s, b);
    (if g1.Some? then Some(g1.value.0) else None, if g2.Some? then Some(g2.value.0) else None)
  }

  /** `VALUES\s*\((...)\)` at `b`. */
  function ValuesGroupAt(s: string, b: nat): Option<(string, nat)>
    requires b <= |s|
  {
    if KeywordAt(s, b, "VALUES") then ParenGroupAt(s, SkipWs(s, b + 6)) else None
  }

  /** The length of a `'[^']+'` or `"[^"]+"` token at the start of `v`, or 0. */
  function QuotedTokenLength(v: string): (n: nat)
    ensures n > 0 ==> 3 <= n <= |v| && IsQuote(v[0]) && v[n - 1] == v[0]
    ensures n > 0 ==> forall k :: 1 <= k < n - 1 ==> v[k] != v[0]
  {
    if v != [] && IsQuote(v[0]) then
      var q := v[0];
      var e := RunEnd(v, 1, c => c != q);
      if 1 < e < |v| then e + 1 else 0
    else 0
  }

  /** The length of the `[^,]+` run at the start of `v`. */
  function PlainTokenLength(v: string): (n: nat)
    ensures n <= |v|
    ensures forall k :: 0 <= k < n ==> v[k] != ','
    ensures n < |v| ==> v[n] == ','
  {
    RunEnd(v, 0, c => c != ',')
  }

  /** The matches of `(?:'([^']+)'|"([^"]+)")|([^,]+)` scanning `v` left to
      right: a quoted token, else a run up to the next comma; commas between
      matches are skipped. */
  function Tokens(v: string): (ts: seq<string>)
    ensures forall k :: 0 <= k < |ts| ==> ts[k] != []
    decreases |v|
  {
    if v == [] then []
    else if QuotedTokenLength(v) > 0 then [v[..QuotedTokenLength(v)]] + Tokens(v[QuotedTokenLength(v)..])
    else if v[0] == ',' then Tokens(v[1..])
    else [v[..PlainTokenLength(v)]] + Tokens(v[PlainTokenLength(v)..])
  }

  /** Values without quotes and commas, joined by commas, are read back one by one. */
  lemma {:induction false} TokensOfJoin(xs: seq<string>)
    requires forall k :: 0 <= k < |xs| ==> xs[k] != [] && ',' !in xs[k] && !IsQuote(xs[k][0])
    ensures Tokens(Join(xs, ',')) == xs
  {
    if |xs| == 1 {
      PlainTokenFirst(xs[0], []);
      assert xs[0] + [] == xs[0];
    } else if |xs| > 1 {
      var rest := Join(xs[1..], ',');
      assert Join(xs, ',') == xs[0] + ([','] + rest);
      PlainTokenFirst(xs[0], [','] + rest);
      CommaSkipped(rest);
      TokensOfJoin(xs[1..]);
      assert xs == [xs[0]] + xs[1..];
    }
  }

  /** A value without quotes and commas, then the end or a comma, is one match. */
  lemma PlainTokenFirst(x: string, tail: string)
    requires x != [] && ',' !in x && !IsQuote(x[0]) && (tail == [] || tail[0] == ',')
    ensures Tokens(x + tail) == [x] + Tokens(tail)
  {
    var v := x + tail;
    assert v[0] == x[0];
    assert QuotedTokenLength(v) == 0;
    assert PlainTokenLength(v) == |x| by {
      assert forall k :: 0 <= k < |x| ==> v[k] == x[k];
      assert |x| < |v| ==> v[|x|] == ',';
    }
    assert v[..|x|] == x;
    assert v[|x|..] == tail;
  }

  /** A comma between matches is skipped. */
  lemma CommaSkipped(rest: string)
    ensures Tokens([','] + rest) == Tokens(rest)
  {
    var v := [','] + rest;
    assert QuotedTokenLength(v) == 0;
    assert v[1..] == rest;
  }

  /** A quoted value keeps the commas inside it. */
  lemma QuotedTokenKeepsCommas(t: string, rest: string)
    requires t != [] && '\'' !in t
    ensures Tokens("'" + t + "'" + rest) == ["'" + t + "'"] + Tokens(rest)
  {
    var v := "'" + t + "'" + rest;
    var n := |t| + 2;
    assert forall k :: 1 <= k < n - 1 ==> v[k] == t[k - 1];
    assert v[n - 1] == '\'';
    assert RunEnd(v, 1, c => c != '\'') == n - 1 by {
      var q := '\'';
      assert forall k :: 1 <= k < n - 1 ==> v[k] != q;
    }
    assert QuotedTokenLength(v) == n;
    assert v[..n] == "'" + t + "'";
    assert v[n..] == rest;
  }

  /** `cleanValues`: each match of the token pattern, trimmed and coerced,
      pushed in the order the matches come. */
  method CleanValues(values: string) returns (cleaned: seq<Value>)
    ensures cleaned == CleanAll(Tokens(values))
  {
    var matches := Tokens(values);
    cleaned := [];
    for k := 0 to |matches|
      invariant cleaned == CleanAll(matches[..k])
    {
      CleanAllSnoc(matches, k);
      cleaned := cleaned + [Clean(Trim(matches[k]))];
    }
    assert matches[..|matches|] == matches;
  }

  /** What INSERT passes on: with the second group absent the command must not
      mention VALUES and the first group holds the values; with both groups the
      first holds the columns. A missing group is read as undefined. */
  function InsertRequestOf(s: string): (r: Parse<InsertRequest>)
    ensures Syntax.FindInsertHead(s, 0).None? ==> r == Fails(CannotRead("null", "1"))
    ensures InsertGroups(s).Some? && InsertGroups(s).value.1.None? && SearchWord(s, "VALUES", 0).Some? ==>
              r == Fails(InsertNeedsValues)
    ensures r.Parsed? <==>
              InsertGroups(s).Some? && InsertGroups(s).value.0.Some? &&
              (InsertGroups(s).value.1.Some? || SearchWord(s, "VALUES", 0).None?)
    ensures r.Parsed? && r.value.columns.None? ==>
              SearchWord(s, "VALUES", 0).None? && InsertGroups(s).value.1.None? &&
              r.value.values == CleanAll(Tokens(InsertGroups(s).value.0.value))
    ensures r.Parsed? && r.value.columns.Some? ==>
              var (cols, vals) := InsertGroups(s).value;
              vals.Some? && r.value.columns.value == CleanAll(Split(cols.value, ',')) &&
              r.value.values == CleanAll(Tokens(vals.value))
  {
    match InsertGroups(s)
    case None => Fails(CannotRead("null", "1"))
    case Some((cols, vals)) =>
      if vals.None? then
        if SearchWord(s, "VALUES", 0).Some? then Fails(InsertNeedsValues)
        else if cols.None? then Fails(CannotRead("undefined", "matchAll"))
        else Parsed(InsertRequest(None, CleanAll(Tokens(cols.value))))
      else if cols.None? then Fails(CannotRead("undefined", "split"))
      else Parsed(InsertRequest(Some(CleanAll(Split(cols.value, ','))), CleanAll(Tokens(vals.value))))
  }

  /** An INSERT with a column list and a value list. */
  function InsertCommand(table: string, cols: string, vals: string): string {
    "INSERT INTO " + table + " (" + cols + ") VALUES (" + vals + ")"
  }

  /** Columns and values written as `INSERT INTO t (c1,…) VALUES (v1,…)` are
      read back in order, the columns split at commas and the values tokenised. */
  lemma InsertOfJoinedLists(table: string, cs: seq<string>, vs: seq<string>)
    requires table != [] && forall k :: 0 <= k < |table| ==> IsWordChar(table[k])
    requires cs != [] && forall k :: 0 <= k < |cs| ==> PlainItem(cs[k])
    requires vs != [] && forall k :: 0 <= k < |vs| ==> PlainItem(vs[k])
    ensures InsertRequestOf(InsertCommand(table, Join(cs, ','), Join(vs, ','))) ==
            Parsed(InsertRequest(Some(CleanAll(cs)), CleanAll(vs)))
  {
    var c, v := Join(cs, ','), Join(vs, ',');
    JoinOfPlainItems(cs);
    JoinOfPlainItems(vs);
    assert DotSpan(c, 0, |c|) && DotSpan(v, 0, |v|);
    PlainListIn(c, 0, |c|);
    PlainListIn(v, 0, |v|);
    InsertGroupsOfCommand(table, c, v);
    SplitJoin(cs, ',');
    TokensOfJoin(vs);
  }

  /** Lists that match the list pattern, written over several lines or not,
      are read back: the white space around each item may hold line
      terminators, and only an item itself stops at one. */
  lemma InsertOfListTexts(table: string, c: string, v: string)
    requires table != [] && forall k :: 0 <= k < |table| ==> IsWordChar(table[k])
    requires ')' !in c && ListMatch(c, 0, |c|)
    requires ')' !in v && ListMatch(v, 0, |v|)
    ensures InsertRequestOf(InsertCommand(table, c, v)) ==
            Parsed(InsertRequest(Some(CleanAll(Split(c, ','))), CleanAll(Tokens(v))))
  {
    ListInIsMatch(c, 0, |c|);
    ListInIsMatch(v, 0, |v|);
    InsertGroupsOfCommand(table, c, v);
  }

  /** `INSERT INTO t (a,\nb) VALUES (1,2)` inserts the columns `a` and `b`. */
  lemma MultiLineInsertExample()
    ensures InsertRequestOf(InsertCommand("t", "a,\nb", "1,2")) ==
            Parsed(InsertRequest(Some([Clean("a"), Clean("b")]), [Clean("1"), Clean("2")]))
  {
    ExampleColumnList();
    ExampleValueList();
    InsertOfListTexts("t", "a,\nb", "1,2");
    ExampleColumns();
    ExampleValues();
  }

  lemma ExampleColumnList()
    ensures ')' !in "a,\nb" && ListMatch("a,\nb", 0, 4)
  {
    var c := "a,\nb";
    assert ListRun(c, 0, 2) == ListState(true, true, false);
    assert ListRun(c, 0, 4) == ListState(false, true, false);
    ListInIsMatch(c, 0, 4);
  }

  lemma ExampleValueList()
    ensures ')' !in "1,2" && ListMatch("1,2", 0, 3)
  {
    var v := "1,2";
    assert ListRun(v, 0, 3) == ListState(false, true, false);
    ListInIsMatch(v, 0, 3);
  }

  lemma ExampleColumns()
    ensures CleanAll(Split("a,\nb", ',')) == [Clean("a"), Clean("b")]
  {
    ExampleColumnSplit();
    TrimPlain("a");
    ExampleTrimNewline();
    CleanPair(Split("a,\nb", ','), "a", "\nb", "a", "b");
  }

  lemma ExampleColumnSplit()
    ensures Split("a,\nb", ',') == ["a", "\nb"]
  {
    assert Join(["a", "\nb"], ',') == "a,\nb";
    SplitJoin(["a", "\nb"], ',');
  }

  lemma ExampleTrimNewline()
    ensures Trim("\nb") == "b"
  {
    TrimAfterNewline("b");
    assert "\n" + "b" == "\nb";
  }

  lemma ExampleValues()
    ensures CleanAll(Tokens("1,2")) == [Clean("1"), Clean("2")]
  {
    ExampleTokens();
    TrimPlain("1");
    TrimPlain("2");
    CleanPair(Tokens("1,2"), "1", "2", "1", "2");
  }

  lemma ExampleTokens()
    ensures Tokens("1,2") == ["1", "2"]
  {
    assert Join(["1", "2"], ',') == "1,2";
    TokensOfJoin(["1", "2"]);
  }

  lemma CleanPair(xs: seq<string>, x: string, y: string, x1: string, y1: string)
    requires xs == [x, y] && Trim(x) == x1 && Trim(y) == y1
    ensures CleanAll(xs) == [Clean(x1), Clean(y1)]
  {
    assert xs[1..] == [y];
  }

  lemma TrimPlain(x: string)
    requires |x| == 1 && !IsWs(x[0])
    ensures Trim(x) == x
  {
    assert SkipWs(x, 0) == 0;
  }

  lemma TrimAfterNewline(x: string)
    requires |x| == 1 && !IsWs(x[0])
    ensures Trim("\n" + x) == x
  {
    var s := "\n" + x;
    assert SkipWs(s, 0) == 1 by {
      assert SkipWs(s, 1) == 1;
    }
    assert s[1..2] == x;
  }

  /** A list item the example can hold: not empty, no comma, no parenthesis, no
      line terminator, and not starting with a quote. */
  predicate PlainItem(x: string) {
    x != [] && ',' !in x && ')' !in x && !IsQuote(x[0]) && forall k :: 0 <= k < |x| ==> !IsLineTerminator(x[k])
  }

  lemma {:induction false} JoinOfPlainItems(xs: seq<string>)
    requires xs != [] && forall k :: 0 <= k < |xs| ==> PlainItem(xs[k])
    ensures Join(xs, ',') != [] && ')' !in Join(xs, ',')
    ensures forall k :: 0 <= k < |Join(xs, ',')| ==> !IsLineTerminator(Join(xs, ',')[k])
  {
    if |xs| > 1 {
      JoinOfPlainItems(xs[1..]);
      assert PlainItem(xs[0]);
      var j := xs[0] + [','] + Join(xs[1..], ',');
      assert Join(xs, ',') == j;
      forall k | 0 <= k < |j| ensures !IsLineTerminator(j[k]) {
        if k < |xs[0]| {
          assert j[k] == xs[0][k];
        } else if k > |xs[0]| {
          assert j[k] == Join(xs[1..], ',')[k - |xs[0]| - 1];
        }
      }
    } else {
      assert PlainItem(xs[0]);
    }
  }

  /** The two groups of an INSERT with both lists are those lists. */
  lemma InsertGroupsOfCommand(table: string, c: string, v: string)
    requires table != [] && forall k :: 0 <= k < |table| ==> IsWordChar(table[k])
    requires ')' !in c && ListIn(c, 0, |c|)
    requires ')' !in v && ListIn(v, 0, |v|)
    ensures InsertGroups(InsertCommand(table, c, v)) == Some((Some(c), Some(v)))
  {
    var s, n := InsertCommand(table, c, v), |table|;
    CommandHead(table, c, v);
    CommandTail(table, c, v);
    InsertGroupsOfHead(s, n, (Some(c), Some(v)));
  }

  lemma CommandHead(table: string, c: string, v: string)
    requires table != [] && forall k :: 0 <= k < |table| ==> IsWordChar(table[k])
    ensures var s, n := InsertCommand(table, c, v), |table|;
            13 + n <= |s| && Syntax.FindInsertHead(s, 0) == Some(0) && SkipWs(s, 6) == 7 && SkipWs(s, 11) == 12 &&
            WordEnd(s, 12) == 12 + n && SkipWs(s, 12 + n) == 13 + n
  {
    CommandHeadChars(table, c, v);
    HeadPositions(InsertCommand(table, c, v), |table|);
  }

  lemma CommandTail(table: string, c: string, v: string)
    requires ')' !in c && ListIn(c, 0, |c|)
    requires ')' !in v && ListIn(v, 0, |v|)
    ensures var s, n := InsertCommand(table, c, v), |table|;
            13 + n <= |s| && GroupsAfterTable(s, 13 + n) == (Some(c), Some(v))
  {
    CommandParenChars(table, c, v);
    CommandValuesChars(table, c, v);
    TailGroups(InsertCommand(table, c, v), |table|, c, v);
  }

  lemma CommandHeadChars(table: string, c: string, v: string)
    requires table != [] && forall k :: 0 <= k < |table| ==> IsWordChar(table[k])
    ensures var s, n := InsertCommand(table, c, v), |table|;
            14 + n <= |s| && KeywordAt(s, 0, "INSERT") && s[6] == ' ' && s[7] == 'I' && KeywordAt(s, 7, "INTO") && s[11] == ' ' &&
            (forall k :: 12 <= k < 12 + n ==> IsWordChar(s[k])) && s[12 + n] == ' ' && s[13 + n] == '('
  {
    CommandKeywords(table, c, v);
    CommandTableChars(table, c, v);
  }

  lemma CommandKeywords(table: string, c: string, v: string)
    ensures var s := InsertCommand(table, c, v);
            KeywordAt(s, 0, "INSERT") && KeywordAt(s, 7, "INTO")
  {
    var s := InsertCommand(table, c, v);
    assert s[0..6] == "INSERT" && s[7..11] == "INTO";
    KeywordAtOfLiteral(s, 0, "INSERT");
    KeywordAtOfLiteral(s, 7, "INTO");
  }

  lemma CommandTableChars(table: string, c: string, v: string)
    requires forall k :: 0 <= k < |table| ==> IsWordChar(table[k])
    ensures var s, n := InsertCommand(table, c, v), |table|;
            14 + n <= |s| && s[6] == ' ' && s[7] == 'I' && s[11] == ' ' &&
            (forall k :: 12 <= k < 12 + n ==> IsWordChar(s[k])) && s[12 + n] == ' ' && s[13 + n] == '('
  {
    var s, n := InsertCommand(table, c, v), |table|;
    forall k | 12 <= k < 12 + n ensures IsWordChar(s[k]) {
      assert s[k] == table[k - 12];
    }
  }

  lemma HeadPositions(s: string, n: nat)
    requires n > 0 && 14 + n <= |s| && KeywordAt(s, 0, "INSERT") && s[6] == ' ' && s[7] == 'I' && KeywordAt(s, 7, "INTO") && s[11] == ' '
    requires (forall k :: 12 <= k < 12 + n ==> IsWordChar(s[k])) && s[12 + n] == ' ' && s[13 + n] == '('
    ensures Syntax.FindInsertHead(s, 0) == Some(0) && SkipWs(s, 6) == 7 && SkipWs(s, 11) == 12
    ensures WordEnd(s, 12) == 12 + n && SkipWs(s, 12 + n) == 13 + n
  {
    HeadFound(s);
    WordEndOf(s, 12, 12 + n);
    SkipOneSpace(s, 12 + n);
  }

  lemma HeadFound(s: string)
    requires 13 <= |s| && KeywordAt(s, 0, "INSERT") && s[6] == ' ' && s[7] == 'I' && KeywordAt(s, 7, "INTO") && s[11] == ' '
    requires IsWordChar(s[12])
    ensures Syntax.FindInsertHead(s, 0) == Some(0) && SkipWs(s, 6) == 7 && SkipWs(s, 11) == 12
  {
    HeadSpaces(s);
    HeadAtZero(s);
    InsertHeadFoundAt(s, 0);
  }

  lemma HeadSpaces(s: string)
    requires 13 <= |s| && s[6] == ' ' && s[7] == 'I' && s[11] == ' ' && IsWordChar(s[12])
    ensures SkipWs(s, 6) == 7 && SkipWs(s, 11) == 12
  {
    SkipOneSpace(s, 6);
    SkipOneSpace(s, 11);
  }

  lemma InsertHeadFoundAt(s: string, p: nat)
    requires p <= |s| && Syntax.InsertHeadAt(s, p)
    ensures Syntax.FindInsertHead(s, p) == Some(p)
  {
  }

  lemma HeadAtZero(s: string)
    requires 13 <= |s| && KeywordAt(s, 0, "INSERT") && KeywordAt(s, 7, "INTO") && IsWordChar(s[12])
    requires SkipWs(s, 6) == 7 && SkipWs(s, 11) == 12
    ensures Syntax.InsertHeadAt(s, 0)
  {
  }

  lemma CommandParenChars(table: string, c: string, v: string)
    ensures var s, n, m := InsertCommand(table, c, v), |table|, |c|;
            |s| == 25 + n + m + |v| && s[13 + n] == '(' && s[14 + n + m] == ')' &&
            forall k :: 0 <= k < m ==> s[14 + n + k] == c[k]
  {
    var s, n, m := InsertCommand(table, c, v), |table|, |c|;
    forall k | 0 <= k < m ensures s[14 + n + k] == c[k] {
    }
  }

  lemma CommandValuesChars(table: string, c: string, v: string)
    ensures var s, n, m := InsertCommand(table, c, v), |table|, |c|;
            |s| == 25 + n + m + |v| && s[15 + n + m] == ' ' && s[16 + n + m] == 'V' && KeywordAt(s, 16 + n + m, "VALUES") &&
            s[22 + n + m] == ' ' && s[23 + n + m] == '(' && s[24 + n + m + |v|] == ')' &&
            forall k :: 0 <= k < |v| ==> s[24 + n + m + k] == v[k]
  {
    CommandValuesKeyword(table, c, v);
    CommandValuesList(table, c, v);
  }

  lemma CommandValuesKeyword(table: string, c: string, v: string)
    ensures var s, n, m := InsertCommand(table, c, v), |table|, |c|;
            |s| == 25 + n + m + |v| && KeywordAt(s, 16 + n + m, "VALUES")
  {
    var s, n, m := InsertCommand(table, c, v), |table|, |c|;
    assert s[16 + n + m..22 + n + m] == "VALUES";
    KeywordAtOfLiteral(s, 16 + n + m, "VALUES");
  }

  lemma CommandValuesList(table: string, c: string, v: string)
    ensures var s, n, m := InsertCommand(table, c, v), |table|, |c|;
            |s| == 25 + n + m + |v| && s[15 + n + m] == ' ' && s[16 + n + m] == 'V' &&
            s[22 + n + m] == ' ' && s[23 + n + m] == '(' && s[24 + n + m + |v|] == ')' &&
            forall k :: 0 <= k < |v| ==> s[24 + n + m + k] == v[k]
  {
    var s, n, m := InsertCommand(table, c, v), |table|, |c|;
    forall k | 0 <= k < |v| ensures s[24 + n + m + k] == v[k] {
    }
  }

  lemma TailGroups(s: string, n: nat, c: string, v: string)
    requires ')' !in c && ListIn(c, 0, |c|)
    requires ')' !in v && ListIn(v, 0, |v|)
    requires var m := |c|;
             |s| == 25 + n + m + |v| && s[13 + n] == '(' && s[14 + n + m] == ')' &&
             (forall k :: 0 <= k < m ==> s[14 + n + k] == c[k]) &&
             s[15 + n + m] == ' ' && s[16 + n + m] == 'V' && KeywordAt(s, 16 + n + m, "VALUES") &&
             s[22 + n + m] == ' ' && s[23 + n + m] == '(' && s[24 + n + m + |v|] == ')' &&
             forall k :: 0 <= k < |v| ==> s[24 + n + m + k] == v[k]
    ensures GroupsAfterTable(s, 13 + n) == (Some(c), Some(v))
  {
    var m := |c|;
    TailColumns(s, n, c, |v|);
    TailValues(s, n, m, v);
    GroupsAfterTableOf(s, 13 + n, c, 15 + n + m, v);
  }

  lemma TailColumns(s: string, n: nat, c: string, lv: nat)
    requires ')' !in c && ListIn(c, 0, |c|)
    requires var m := |c|;
             |s| == 25 + n + m + lv && s[13 + n] == '(' && s[14 + n + m] == ')' &&
             forall k :: 0 <= k < m ==> s[14 + n + k] == c[k]
    ensures ParenGroupAt(s, 13 + n) == Some((c, 15 + n + |c|))
  {
    ParenGroupOf(s, 13 + n, c);
  }

  lemma TailValues(s: string, n: nat, m: nat, v: string)
    requires ')' !in v && ListIn(v, 0, |v|)
    requires |s| == 25 + n + m + |v| && s[15 + n + m] == ' ' && s[16 + n + m] == 'V' && KeywordAt(s, 16 + n + m, "VALUES") &&
             s[22 + n + m] == ' ' && s[23 + n + m] == '(' && s[24 + n + m + |v|] == ')' &&
             forall k :: 0 <= k < |v| ==> s[24 + n + m + k] == v[k]
    ensures SkipWs(s, 15 + n + m) == 16 + n + m && ValuesGroupAt(s, 16 + n + m) == Some((v, |s|))
  {
    ValuesTail(s, 15 + n + m, v);
  }

  lemma ValuesTail(s: string, e: nat, v: string)
    requires ')' !in v && ListIn(v, 0, |v|)
    requires |s| == e + 10 + |v| && s[e] == ' ' && s[e + 1] == 'V' && KeywordAt(s, e + 1, "VALUES") &&
             s[e + 7] == ' ' && s[e + 8] == '(' && s[e + 9 + |v|] == ')' &&
             forall k :: 0 <= k < |v| ==> s[e + 9 + k] == v[k]
    ensures SkipWs(s, e) == e + 1 && ValuesGroupAt(s, e + 1) == Some((v, |s|))
  {
    ParenGroupOf(s, e + 8, v);
    TailSpaces(s, e);
    ValuesGroupOf(s, e + 1, v);
  }

  lemma TailSpaces(s: string, e: nat)
    requires e + 9 < |s| && s[e] == ' ' && s[e + 1] == 'V' && s[e + 7] == ' ' && s[e + 8] == '('
    ensures SkipWs(s, e) == e + 1 && SkipWs(s, e + 7) == e + 8
  {
    SkipOneSpace(s, e);
    SkipOneSpace(s, e + 7);
  }

  lemma InsertGroupsOfHead(s: string, n: nat, g: (Option<string>, Option<string>))
    requires 13 + n <= |s|
    requires Syntax.FindInsertHead(s, 0) == Some(0) && SkipWs(s, 6) == 7 && SkipWs(s, 11) == 12
    requires WordEnd(s, 12) == 12 + n && SkipWs(s, 12 + n) == 13 + n
    requires GroupsAfterTable(s, 13 + n) == g
    ensures InsertGroups(s) == Some(g)
  {
  }

  lemma GroupsAfterTableOf(s: string, a: nat, c: string, e: nat, v: string)
    requires a <= e <= |s| && ParenGroupAt(s, a) == Some((c, e))
    requires ValuesGroupAt(s, SkipWs(s, e)).Some? && ValuesGroupAt(s, SkipWs(s, e)).value.0 == v
    ensures GroupsAfterTable(s, a) == (Some(c), Some(v))
  {
  }

  lemma ValuesGroupOf(s: string, b: nat, v: string)
    requires b + 9 + |v| == |s| && KeywordAt(s, b, "VALUES")
    requires SkipWs(s, b + 6) == b + 7 && ParenGroupAt(s, b + 7) == Some((v, |s|))
    ensures ValuesGroupAt(s, b) == Some((v, |s|))
  {
  }

  lemma WordEndOf(s: string, i: nat, e: nat)
    requires i <= e < |s| && !IsWordChar(s[e])
    requires forall k :: i <= k < e ==> IsWordChar(s[k])
    ensures WordEnd(s, i) == e
  {
  }

  lemma SkipOneSpace(s: string, i: nat)
    requires i + 1 < |s| && s[i] == ' ' && !IsWs(s[i + 1])
    ensures SkipWs(s, i) == i + 1
  {
  }

  /** `(x)` at `p`, with no `)` inside the list `x`, is one group. */
  lemma ParenGroupOf(s: string, p: nat, x: string)
    requires ')' !in x && ListIn(x, 0, |x|)
    requires p + |x| + 2 <= |s| && s[p] == '(' && s[p + |x| + 1] == ')'
    requires forall k :: 0 <= k < |x| ==> s[p + 1 + k] == x[k]
    ensures ParenGroupAt(s, p) == Some((x, p + |x| + 2))
  {
    ListRunShift(s, p + 1, x, |x|);
    ParenListOf(s, p, x);
  }

  /** The run over a copy of `x` inside `s` is the run over `x`. */
  lemma {:induction false} ListRunShift(s: string, o: nat, x: string, k: nat)
    requires o + |x| <= |s| && k <= |x|
    requires forall i :: 0 <= i < |x| ==> s[o + i] == x[i]
    ensures ListRun(s, o, o + k) == ListRun(x, 0, k)
    decreases k
  {
    if k > 0 {
      ListRunShift(s, o, x, k - 1);
      assert s[o + k - 1] == x[k - 1];
    }
  }

  /** `(x)` at `p`, with no `)` inside `x` and `x` a list, is one group. */
  lemma ParenListOf(s: string, p: nat, x: string)
    requires ')' !in x && p + |x| + 2 <= |s| && s[p] == '(' && s[p + |x| + 1] == ')'
    requires forall k :: 0 <= k < |x| ==> s[p + 1 + k] == x[k]
    requires ListIn(s, p + 1, p + 1 + |x|)
    ensures ParenGroupAt(s, p) == Some((x, p + |x| + 2))
  {
    var z := p + |x| + 1;
    forall y | p + 2 <= y < z ensures s[y] != ')' {
      assert s[y] == x[y - p - 1];
    }
    ListInNotEmpty(s, p + 1, z);
    CloseAtFirst(s, p + 1, p + 2, z);
    assert s[p + 1..z] == x;
  }

  /** A list holds at least one character. */
  lemma ListInNotEmpty(s: string, a: nat, b: nat)
    requires a <= b <= |s| && ListIn(s, a, b)
    ensures a < b
  {
  }

  /** Text without line terminators is a list of one item. */
  lemma {:induction false} PlainListIn(s: string, a: nat, b: nat)
    requires a < b <= |s| && DotSpan(s, a, b)
    ensures ListRun(s, a, b).item && ListIn(s, a, b)
    decreases b - a
  {
    if b - 1 > a {
      PlainListIn(s, a, b - 1);
    }
  }

  /** With no `)` from `e` up to `x`, the first `)` ending a list is the one at `x`. */
  lemma {:induction false} CloseAtFirst(s: string, a: nat, e: nat, x: nat)
    requires a <= e <= x < |s| && s[x] == ')' && ListIn(s, a, x)
    requires forall y :: e <= y < x ==> s[y] != ')'
    ensures CloseOf(s, a, e) == Some(x)
    decreases x - e
  {
    if e < x {
      CloseAtFirst(s, a, e + 1, x);
    }
  }

  /** The INSERT branches of the executor, with `cleanValues` run as a loop. */
  method ReadInsert(s: string) returns (r: Parse<InsertRequest>)
    ensures r == InsertRequestOf(s)
  {
    var groups := InsertGroups(s);
    if groups.None? {
      return Fails(CannotRead("null", "1"));
    }
    var columns, values := groups.value.0, groups.value.1;
    if values.None? {
      if SearchWord(s, "VALUES", 0).Some? {
        return Fails(InsertNeedsValues);
      }
      if columns.None? {
        return Fails(CannotRead("undefined", "matchAll"));
      }
      var cleaned := CleanValues(columns.value);
      r := Parsed(InsertRequest(None, cleaned));
    } else {
      if columns.None? {
        return Fails(CannotRead("undefined", "split"));
      }
      var cleaned := CleanValues(values.value);
      r := Parsed(InsertRequest(Some(CleanAll(Split(columns.value, ','))), cleaned));
    }
  }

  // ---------------------------------------------------------------- FIND

  /** What FIND passes on. The columns are absent for `*`; the condition is
      absent when no WHERE condition matches. */
  datatype FindRequest = FindRequest(table: string, distinct: bool, columns: Option<seq<string>>,
                                     condition: Option<Condition>, offset: Option<nat>, limit: Option<nat>)

  const FindFormatError := "Invalid format for finding command"

  /** `command.split(/\bIN\b/ui)` when it gives exactly two parts: the text
      before and after the one `IN`. */
  function SplitAtIn(s: string): (r: Parse<(string, string)>)
    ensures r.Fails? ==> r.message == FindFormatError
  {
    match SearchWord(s, "IN", 0)
    case None => Fails(FindFormatError)
    case Some(i) =>
      if SearchWord(s, "IN", i + 2).Some? then Fails(FindFormatError)
      else Parsed((s[..i], s[i + 2..]))
  }

  /** The split succeeds exactly when `IN` stands as a word at one position,
      and the parts are the text around it. */
  lemma SplitAtInOnce(s: string)
    ensures SplitAtIn(s).Parsed? <==> exists i :: 0 <= i <= |s| && BoundedWordAt(s, i, "IN") && OnlyInAt(s, i)
    ensures SplitAtIn(s).Parsed? ==>
              var i := |SplitAtIn(s).value.0|;
              BoundedWordAt(s, i, "IN") && s == SplitAtIn(s).value.0 + s[i..i + 2] + SplitAtIn(s).value.1
  {
    match SearchWord(s, "IN", 0)
    case None =>
    case Some(i) =>
      assert s[i + 1..i + 2] == s[i + 1..][..1];
      KeywordAtChar(s, i, "IN", 1);
      assert !KeywordAt(s, i + 1, "IN");
      assert !BoundedWordAt(s, i + 1, "IN");
      if SearchWord(s, "IN", i + 2).None? {
        assert OnlyInAt(s, i);
        assert s == s[..i] + s[i..i + 2] + s[i + 2..];
      } else {
        var j := SearchWord(s, "IN", i + 2).value;
        forall k | 0 <= k <= |s| && BoundedWordAt(s, k, "IN") ensures !OnlyInAt(s, k) {
          if k == i { assert BoundedWordAt(s, j, "IN"); assert j != k; }
          else { assert BoundedWordAt(s, i, "IN"); }
        }
      }
  }

  /** No other position holds `IN` as a word. */
  predicate OnlyInAt(s: string, i: nat) {
    forall k :: 0 <= k <= |s| && k != i ==> !BoundedWordAt(s, k, "IN")
  }

  /** The word boundary test `\b` between positions `k - 1` and `k`. */
  predicate IsBoundary(s: string, k: nat)
    requires 0 < k <= |s|
  {
    IsWordChar(s[k - 1]) != (k < |s| && IsWordChar(s[k]))
  }

  /** The largest `k` in `(h, e]` with a word boundary, as a greedy `[^' ]+\b` backs off to it. */
  function LastBoundary(s: string, h: nat, e: nat): (r: Option<nat>)
    requires h < e <= |s|
    ensures r.Some? ==> h < r.value <= e && IsBoundary(s, r.value)
    decreases e
  {
    if IsBoundary(s, e) then Some(e)
    else if e == h + 1 then None
    else LastBoundary(s, h, e - 1)
  }

  /** The FIND value `'[^']*'|\b[^' ]+\b` at `h`. A position inside the white space
      before `h` cannot start either form, so `h` is the only start. */
  function FindValueAt(s: string, h: nat): (r: Option<string>)
    requires h <= |s|
    ensures r.Some? ==> r.value != [] && LiteralAt(s, h, r.value)
  {
    if h == |s| then None
    else if s[h] == '\'' then
      var q := RunEnd(s, h + 1, c => c != '\'');
      if q < |s| then Some(s[h..q + 1]) else None
    else if IsWordChar(s[h]) && (h == 0 || !IsWordChar(s[h - 1])) then
      var e := RunEnd(s, h, c => c != '\'' && c != ' ');
      match LastBoundary(s, h, e)
      case None => None
      case Some(k) => Some(s[h..k])
    else None
  }

  /** `\s*(=|!=|>|<|>=|<=)\s*VALUE` at `g`, trying the operators in the source's order. */
  function FindOperatorValue(s: string, g: nat, n: nat): (r: Option<(string, string)>)
    requires g <= |s|
    ensures r.Some? ==> r.value.0 in Syntax.ComparisonOperators && LiteralAt(s, g, r.value.0)
    decreases |Syntax.ComparisonOperators| - n
  {
    if n >= |Syntax.ComparisonOperators| then None
    else
      var op := Syntax.ComparisonOperators[n];
      var v := if LiteralAt(s, g, op) then FindValueAt(s, SkipWs(s, g + |op|)) else None;
      if v.Some? then Some((op, v.value)) else FindOperatorValue(s, g, n + 1)
  }

  /** A quoted value is read up to its first closing quote, both quotes included. */
  lemma FindQuotedValue(s: string, h: nat, x: string)
    requires LiteralAt(s, h, "'" + x + "'") && '\'' !in x
    ensures FindValueAt(s, h) == Some("'" + x + "'")
  {
    var q := RunEnd(s, h + 1, c => c != '\'');
    var z := h + 1 + |x|;
    assert s[z] == ("'" + x + "'")[z - h];
    forall k | h + 1 <= k < z ensures s[k] != '\'' {
      assert s[k] == ("'" + x + "'")[k - h] == x[k - h - 1];
    }
    assert q == z;
    assert s[h..q + 1] == "'" + x + "'";
  }

  /** A bare value is the whole run of word characters up to a space, a quote
      or the end of the text, when a word boundary stands before it. */
  lemma FindWordValue(s: string, h: nat, e: nat)
    requires h < e <= |s| && IsWordChar(s[h]) && IsWordChar(s[e - 1]) && (h == 0 || !IsWordChar(s[h - 1]))
    requires forall k :: h <= k < e ==> s[k] != '\'' && s[k] != ' '
    requires e == |s| || s[e] == ' ' || s[e] == '\''
    ensures FindValueAt(s, h) == Some(s[h..e])
  {
    var r := RunEnd(s, h, c => c != '\'' && c != ' ');
    assert r == e;
    assert IsBoundary(s, e);
  }

  /** The operator `op` at `g` with the value after it, or nothing. */
  function OperatorRead(s: string, g: nat, op: Option<string>): Option<(string, string)>
    requires g <= |s|
  {
    if op.None? || g + |op.value| > |s| then None
    else match FindValueAt(s, SkipWs(s, g + |op.value|))
         case None => None
         case Some(v) => Some((op.value, v))
  }

  /** `>` and `<` are tried before `>=` and `<=`, but no value can start at the
      `=`, so the operator read is always the longest one written. */
  lemma FindOperatorIsLongest(s: string, g: nat)
    requires g <= |s|
    ensures FindOperatorValue(s, g, 0) == OperatorRead(s, g, Syntax.LongestComparison(s, g))
  {
    OperatorLiterals(s, g);
    if LiteralAt(s, g, ">=") || LiteralAt(s, g, "<=") {
      TwoCharOrderedOperator(s, g);
    } else {
      OneCharOrderedOperator(s, g);
    }
  }

  /** Without `>=` or `<=`, the operators' order does not matter. */
  lemma OneCharOrderedOperator(s: string, g: nat)
    requires g <= |s| && !LiteralAt(s, g, ">=") && !LiteralAt(s, g, "<=")
    ensures FindOperatorValue(s, g, 0) == OperatorRead(s, g, Syntax.LongestComparison(s, g))
  {
    OperatorLiterals(s, g);
    if g == |s| {
      NoOperatorAt(s, g);
    } else if s[g] == '!' && g + 1 < |s| && s[g + 1] == '=' {
      NotEqualRead(s, g);
    } else if s[g] == '=' {
      EqualRead(s, g);
    } else if s[g] == '>' {
      GreaterRead(s, g);
    } else if s[g] == '<' {
      LessRead(s, g);
    } else {
      NoOperatorAt(s, g);
    }
  }

  lemma NotEqualRead(s: string, g: nat)
    requires g + 1 < |s| && s[g] == '!' && s[g + 1] == '='
    ensures FindOperatorValue(s, g, 0) == OperatorRead(s, g, Some("!="))
    ensures Syntax.LongestComparison(s, g) == Some("!=")
  {
    OperatorLiterals(s, g);
    OperatorPassed(s, g, 0);
    OperatorTried(s, g, 1);
    OperatorPassed(s, g, 2);
    OperatorPassed(s, g, 3);
    OperatorPassed(s, g, 4);
    OperatorPassed(s, g, 5);
    OperatorsAfter(s, g, 6);
  }

  lemma EqualRead(s: string, g: nat)
    requires g < |s| && s[g] == '='
    ensures FindOperatorValue(s, g, 0) == OperatorRead(s, g, Some("="))
    ensures Syntax.LongestComparison(s, g) == Some("=")
  {
    OperatorLiterals(s, g);
    OperatorTried(s, g, 0);
    OperatorPassed(s, g, 1);
    OperatorPassed(s, g, 2);
    OperatorPassed(s, g, 3);
    OperatorPassed(s, g, 4);
    OperatorPassed(s, g, 5);
    OperatorsAfter(s, g, 6);
  }

  lemma GreaterRead(s: string, g: nat)
    requires g < |s| && s[g] == '>' && (g + 1 == |s| || s[g + 1] != '=')
    ensures FindOperatorValue(s, g, 0) == OperatorRead(s, g, Some(">"))
    ensures Syntax.LongestComparison(s, g) == Some(">")
  {
    OperatorLiterals(s, g);
    OperatorPassed(s, g, 0);
    OperatorPassed(s, g, 1);
    OperatorTried(s, g, 2);
    OperatorPassed(s, g, 3);
    OperatorPassed(s, g, 4);
    OperatorPassed(s, g, 5);
    OperatorsAfter(s, g, 6);
  }

  lemma LessRead(s: string, g: nat)
    requires g < |s| && s[g] == '<' && (g + 1 == |s| || s[g + 1] != '=')
    ensures FindOperatorValue(s, g, 0) == OperatorRead(s, g, Some("<"))
    ensures Syntax.LongestComparison(s, g) == Some("<")
  {
    OperatorLiterals(s, g);
    OperatorPassed(s, g, 0);
    OperatorPassed(s, g, 1);
    OperatorPassed(s, g, 2);
    OperatorTried(s, g, 3);
    OperatorPassed(s, g, 4);
    OperatorPassed(s, g, 5);
    OperatorsAfter(s, g, 6);
  }

  /** An operator not written at `g` is passed over. */
  lemma OperatorPassed(s: string, g: nat, n: nat)
    requires g <= |s| && n < |Syntax.ComparisonOperators| && !LiteralAt(s, g, Syntax.ComparisonOperators[n])
    ensures FindOperatorValue(s, g, n) == FindOperatorValue(s, g, n + 1)
  {
  }

  /** An operator written at `g` is read when a value follows it, else passed over. */
  lemma OperatorTried(s: string, g: nat, n: nat)
    requires g <= |s| && n < |Syntax.ComparisonOperators| && LiteralAt(s, g, Syntax.ComparisonOperators[n])
    ensures var op := Syntax.ComparisonOperators[n];
            FindOperatorValue(s, g, n) ==
              if OperatorRead(s, g, Some(op)).Some? then OperatorRead(s, g, Some(op)) else FindOperatorValue(s, g, n + 1)
  {
    var op := Syntax.ComparisonOperators[n];
    if FindValueAt(s, SkipWs(s, g + |op|)).Some? {
      OperatorValueRead(s, g, n);
    } else {
      OperatorValueMissing(s, g, n);
    }
  }

  lemma OperatorValueRead(s: string, g: nat, n: nat)
    requires g <= |s| && n < |Syntax.ComparisonOperators| && LiteralAt(s, g, Syntax.ComparisonOperators[n])
    requires FindValueAt(s, SkipWs(s, g + |Syntax.ComparisonOperators[n]|)).Some?
    ensures var op := Syntax.ComparisonOperators[n];
            FindOperatorValue(s, g, n) == OperatorRead(s, g, Some(op)) && OperatorRead(s, g, Some(op)).Some?
  {
  }

  lemma OperatorValueMissing(s: string, g: nat, n: nat)
    requires g <= |s| && n < |Syntax.ComparisonOperators| && LiteralAt(s, g, Syntax.ComparisonOperators[n])
    requires FindValueAt(s, SkipWs(s, g + |Syntax.ComparisonOperators[n]|)).None?
    ensures FindOperatorValue(s, g, n) == FindOperatorValue(s, g, n + 1)
    ensures OperatorRead(s, g, Some(Syntax.ComparisonOperators[n])) == None
  {
    OperatorReadMissing(s, g, Syntax.ComparisonOperators[n]);
  }

  lemma OperatorReadMissing(s: string, g: nat, op: string)
    requires LiteralAt(s, g, op) && FindValueAt(s, SkipWs(s, g + |op|)).None?
    ensures OperatorRead(s, g, Some(op)) == None
  {
  }

  /** None of the operators from index `n` on is written at `g`. */
  lemma {:induction false} OperatorsAfter(s: string, g: nat, n: nat)
    requires g <= |s| && n <= |Syntax.ComparisonOperators|
    requires forall m :: n <= m < |Syntax.ComparisonOperators| ==> !LiteralAt(s, g, Syntax.ComparisonOperators[m])
    ensures FindOperatorValue(s, g, n) == None
    decreases |Syntax.ComparisonOperators| - n
  {
    if n < |Syntax.ComparisonOperators| {
      OperatorPassed(s, g, n);
      OperatorsAfter(s, g, n + 1);
    }
  }

  /** `>=` is passed over as `=`, `!=` and `>`, `<=` also as `<`, before it is read. */
  lemma TwoCharOrderedOperator(s: string, g: nat)
    requires LiteralAt(s, g, ">=") || LiteralAt(s, g, "<=")
    ensures FindOperatorValue(s, g, 0) == OperatorRead(s, g, Syntax.LongestComparison(s, g))
  {
    OperatorLiterals(s, g);
    if s[g] == '>' {
      GreaterEqualRead(s, g);
    } else {
      LessEqualRead(s, g);
    }
  }

  lemma GreaterEqualRead(s: string, g: nat)
    requires LiteralAt(s, g, ">=")
    ensures FindOperatorValue(s, g, 0) == OperatorRead(s, g, Some(">="))
  {
    OperatorLiterals(s, g);
    NoValueAtEquals(s, g + 1);
    assert FindOperatorValue(s, g, 0) == FindOperatorValue(s, g, 3) == FindOperatorValue(s, g, 4);
  }

  lemma LessEqualRead(s: string, g: nat)
    requires LiteralAt(s, g, "<=")
    ensures FindOperatorValue(s, g, 0) == OperatorRead(s, g, Some("<="))
  {
    OperatorLiterals(s, g);
    NoValueAtEquals(s, g + 1);
    assert FindOperatorValue(s, g, 0) == FindOperatorValue(s, g, 3) == FindOperatorValue(s, g, 5);
  }

  /** No value can start at an `=`. */
  lemma NoValueAtEquals(s: string, k: nat)
    requires k < |s| && s[k] == '='
    ensures FindValueAt(s, SkipWs(s, k)) == None
  {
    assert SkipWs(s, k) == k;
  }

  /** Which comparison operators are written at `g`, character by character. */
  lemma OperatorLiterals(s: string, g: nat)
    ensures LiteralAt(s, g, "=") <==> g < |s| && s[g] == '='
    ensures LiteralAt(s, g, ">") <==> g < |s| && s[g] == '>'
    ensures LiteralAt(s, g, "<") <==> g < |s| && s[g] == '<'
    ensures LiteralAt(s, g, "!=") <==> g + 1 < |s| && s[g] == '!' && s[g + 1] == '='
    ensures LiteralAt(s, g, ">=") <==> g + 1 < |s| && s[g] == '>' && s[g + 1] == '='
    ensures LiteralAt(s, g, "<=") <==> g + 1 < |s| && s[g] == '<' && s[g + 1] == '='
  {
    LiteralAtChars(s, g, "=");
    LiteralAtChars(s, g, ">");
    LiteralAtChars(s, g, "<");
    LiteralAtChars(s, g, "!=");
    LiteralAtChars(s, g, ">=");
    LiteralAtChars(s, g, "<=");
  }

  lemma LiteralAtChars(s: string, g: nat, o: string)
    requires 1 <= |o| <= 2
    ensures LiteralAt(s, g, o) <==> g + |o| <= |s| && s[g] == o[0] && (|o| == 2 ==> s[g + 1] == o[1])
  {
    if g + |o| <= |s| && s[g] == o[0] && (|o| == 2 ==> s[g + 1] == o[1]) {
      assert s[g..g + |o|] == o;
    }
  }

  /** The lazy `(.+?)` from `c`: the shortest condition `s[c..e]`, free of line
      terminators, after which an operator and a value follow. */
  function LazyCondition(s: string, c: nat, e: nat): (r: Option<Condition>)
    requires c < e && c <= |s|
    ensures r.Some? ==> r.value.value.Some?
    decreases |s| + 1 - e
  {
    if e > |s| || IsLineTerminator(s[e - 1]) then None
    else
      match FindOperatorValue(s, SkipWs(s, e), 0)
      case Some((op, v)) => Some(Condition(s[c..e], op, Some(Clean(v))))
      case None => LazyCondition(s, c, e + 1)
  }

  /** `\s*(=|!=|>|<|>=|<=)\s*VALUE` after the group ends at `e`. */
  function OperatorValueAfter(s: string, e: nat): (r: Option<(string, string)>)
    requires e <= |s|
  {
    FindOperatorValue(s, SkipWs(s, e), 0)
  }

  /** The group started at `c`, at least one character long. */
  function GroupFrom(s: string, c: nat): (r: Option<Condition>)
    requires c <= |s|
    ensures r.Some? ==> r.value.value.Some?
  {
    LazyCondition(s, c, c + 1)
  }

  /** The condition's start: `\s+` greedy at first, then giving back one space at a time. */
  function ConditionFrom(s: string, lo: nat, c: nat): (r: Option<Condition>)
    requires lo <= c <= |s|
    ensures r.Some? ==> r.value.value.Some?
    decreases c
  {
    match GroupFrom(s, c)
    case Some(r) => Some(r)
    case None => if c > lo then ConditionFrom(s, lo, c - 1) else None
  }

  /** `/WHERE\s+(.+?)\s*(=|!=|>|<|>=|<=)\s*('[^']*'|\b[^' ]+\b)/ui` at its leftmost match from `w`. */
  function FindCondition(s: string, w: nat): (r: Option<Condition>)
    requires w <= |s|
    ensures r.Some? ==> r.value.value.Some?
    decreases |s| - w
  {
    var here := ConditionAtWhere(s, w);
    if here.Some? then here
    else if w == |s| then None
    else FindCondition(s, w + 1)
  }

  /** The pattern tried with `WHERE` at `w`. */
  function ConditionAtWhere(s: string, w: nat): (r: Option<Condition>)
    requires w <= |s|
    ensures r.Some? ==> r.value.value.Some?
  {
    if KeywordAt(s, w, "WHERE") && SkipWs(s, w + 5) > w + 5 then ConditionFrom(s, w + 6, SkipWs(s, w + 5))
    else None
  }

  // The FIND condition as a regular-expression match: `WHERE` at `w`, the
  // group `(.+?)` over `s[c..e]`, then an operator and a value. The engine
  // takes the leftmost `w`, then the largest `c` (`\s+` is greedy), then the
  // smallest `e` (`.+?` is lazy). The step lemmas below name each successor
  // position once, so that every fact about it is stated of the same term.

  /** No line terminator in `s[c..e]`, as `.` requires. */
  predicate NoLineTerminator(s: string, c: nat, e: nat)
    requires c <= e <= |s|
  {
    forall k :: c <= k < e ==> !IsLineTerminator(s[k])
  }

  /** The FIND condition pattern matches with `WHERE` at `w` and its first group `s[c..e]`. */
  predicate ConditionMatch(s: string, w: nat, c: nat, e: nat) {
    KeywordAt(s, w, "WHERE") && w + 5 < c <= SkipWs(s, w + 5) && c < e <= |s| &&
    NoLineTerminator(s, c, e) && FindOperatorValue(s, SkipWs(s, e), 0).Some?
  }

  /** The condition a match yields: the group as the field, the operator, and the value cleaned. */
  function MatchedCondition(s: string, c: nat, e: nat): Condition
    requires c < e <= |s| && FindOperatorValue(s, SkipWs(s, e), 0).Some?
  {
    var ov := FindOperatorValue(s, SkipWs(s, e), 0).value;
    Condition(s[c..e], ov.0, Some(Clean(ov.1)))
  }

  /** One step of the lazy group: the end `e` is taken when an operator and a
      value follow it, else the group grows to `e1`, one character more. */
  lemma LazyConditionStep(s: string, c: nat, e: nat, e1: nat)
    requires c < e <= |s| && !IsLineTerminator(s[e - 1]) && e1 == e + 1
    ensures FindOperatorValue(s, SkipWs(s, e), 0).Some? ==> LazyCondition(s, c, e) == Some(MatchedCondition(s, c, e))
    ensures FindOperatorValue(s, SkipWs(s, e), 0).None? ==> LazyCondition(s, c, e) == LazyCondition(s, c, e1)
  {
    if FindOperatorValue(s, SkipWs(s, e), 0).Some? {
      LazyConditionHit(s, c, e);
    } else {
      LazyConditionMiss(s, c, e, e1);
    }
  }

  lemma LazyConditionHit(s: string, c: nat, e: nat)
    requires c < e <= |s| && !IsLineTerminator(s[e - 1]) && FindOperatorValue(s, SkipWs(s, e), 0).Some?
    ensures LazyCondition(s, c, e) == Some(MatchedCondition(s, c, e))
  {
  }

  lemma LazyConditionMiss(s: string, c: nat, e: nat, e1: nat)
    requires c < e <= |s| && !IsLineTerminator(s[e - 1]) && e1 == e + 1 && FindOperatorValue(s, SkipWs(s, e), 0).None?
    ensures LazyCondition(s, c, e) == LazyCondition(s, c, e1)
  {
    var next := LazyCondition(s, c, e1);
    assert LazyCondition(s, c, e) == next;
  }

  /** The lazy group stops at the first end from which an operator and a value follow. */
  lemma {:induction false} LazyConditionFirst(s: string, c: nat, e0: nat, e: nat)
    requires c < e0 <= e <= |s| && NoLineTerminator(s, c, e) && FindOperatorValue(s, SkipWs(s, e), 0).Some?
    requires forall j :: e0 <= j < e ==> OperatorValueAfter(s, j).None?
    ensures LazyCondition(s, c, e0) == Some(MatchedCondition(s, c, e))
    decreases e - e0
  {
    assert !IsLineTerminator(s[e0 - 1]);
    var e1 := e0 + 1;
    LazyConditionStep(s, c, e0, e1);
    if e0 != e {
      assert OperatorValueAfter(s, e0).None?;
      LazyConditionFirst(s, c, e1, e);
    }
  }

  /** What the lazy group finds is a match. */
  lemma {:induction false} LazyConditionSound(s: string, c: nat, p: nat, e0: nat)
    requires c <= p <= |s| && e0 == p + 1 && NoLineTerminator(s, c, p) && LazyCondition(s, c, e0).Some?
    ensures exists e: nat :: e0 <= e <= |s| && NoLineTerminator(s, c, e) && FindOperatorValue(s, SkipWs(s, e), 0).Some? &&
                             LazyCondition(s, c, e0) == Some(MatchedCondition(s, c, e))
    decreases |s| - p
  {
    LazyConditionEnds(s, c, p, e0);
    var e1 := e0 + 1;
    LazyConditionStep(s, c, e0, e1);
    if FindOperatorValue(s, SkipWs(s, e0), 0).None? {
      LazyConditionSound(s, c, e0, e1);
    } else {
      assert e0 <= e0 <= |s| && NoLineTerminator(s, c, e0) && FindOperatorValue(s, SkipWs(s, e0), 0).Some? &&
             LazyCondition(s, c, e0) == Some(MatchedCondition(s, c, e0));
    }
  }

  /** A group that finds something ends within the text, and not after a line terminator. */
  lemma LazyConditionEnds(s: string, c: nat, p: nat, e0: nat)
    requires c <= p <= |s| && e0 == p + 1 && NoLineTerminator(s, c, p) && LazyCondition(s, c, e0).Some?
    ensures e0 <= |s| && NoLineTerminator(s, c, e0) && !IsLineTerminator(s[e0 - 1])
  {
    LazyConditionInText(s, c, e0);
    NoLineTerminatorGrows(s, c, p, e0);
  }

  lemma LazyConditionInText(s: string, c: nat, e: nat)
    requires c < e && c <= |s| && LazyCondition(s, c, e).Some?
    ensures e <= |s| && !IsLineTerminator(s[e - 1])
  {
  }

  lemma NoLineTerminatorGrows(s: string, c: nat, p: nat, e0: nat)
    requires c <= p < e0 <= |s| && e0 == p + 1 && NoLineTerminator(s, c, p) && !IsLineTerminator(s[e0 - 1])
    ensures NoLineTerminator(s, c, e0)
  {
  }

  /** The lazy group finds something when some end fits. */
  lemma {:induction false} LazyConditionComplete(s: string, c: nat, e0: nat, e: nat)
    requires c < e0 <= e <= |s| && NoLineTerminator(s, c, e) && FindOperatorValue(s, SkipWs(s, e), 0).Some?
    ensures LazyCondition(s, c, e0).Some?
    decreases e - e0
  {
    assert !IsLineTerminator(s[e0 - 1]);
    var e1 := e0 + 1;
    LazyConditionStep(s, c, e0, e1);
    if e0 != e && FindOperatorValue(s, SkipWs(s, e0), 0).None? {
      LazyConditionComplete(s, c, e1, e);
    }
  }

  /** The start search at `h`: the group from `h` when it finds something. */
  lemma ConditionFromHere(s: string, lo: nat, h: nat)
    requires lo <= h <= |s|
    ensures GroupFrom(s, h).Some? ==> ConditionFrom(s, lo, h) == GroupFrom(s, h)
    ensures GroupFrom(s, h).None? && h == lo ==> ConditionFrom(s, lo, h).None?
  {
  }

  /** The start search gives back one space, to `h0`, when the group from `h` finds nothing. */
  lemma ConditionFromDown(s: string, lo: nat, h: nat, h0: nat)
    requires lo < h <= |s| && h0 + 1 == h && GroupFrom(s, h).None?
    ensures ConditionFrom(s, lo, h) == ConditionFrom(s, lo, h0)
  {
  }

  /** The group starts at the largest `c` from which the lazy group finds something. */
  lemma {:induction false} ConditionFromFirst(s: string, lo: nat, h: nat, c: nat)
    requires lo <= c <= h <= |s| && GroupFrom(s, c).Some?
    requires forall j :: c < j <= h ==> GroupFrom(s, j).None?
    ensures ConditionFrom(s, lo, h) == GroupFrom(s, c)
    decreases h - c
  {
    ConditionFromHere(s, lo, h);
    if c != h {
      var h0 := h - 1;
      ConditionFromDown(s, lo, h, h0);
      ConditionFromFirst(s, lo, h0, c);
    }
  }

  /** What the start search finds is the lazy group's at some start. */
  lemma {:induction false} ConditionFromSound(s: string, lo: nat, h: nat)
    requires lo <= h <= |s| && ConditionFrom(s, lo, h).Some?
    ensures exists c :: lo <= c <= h && ConditionFrom(s, lo, h) == GroupFrom(s, c)
    decreases h
  {
    ConditionFromHere(s, lo, h);
    if GroupFrom(s, h).None? {
      var h0 := h - 1;
      ConditionFromDown(s, lo, h, h0);
      ConditionFromSound(s, lo, h0);
    }
  }

  /** The start search finds something when some start does. */
  lemma {:induction false} ConditionFromComplete(s: string, lo: nat, h: nat, c: nat)
    requires lo <= c <= h <= |s| && GroupFrom(s, c).Some?
    ensures ConditionFrom(s, lo, h).Some?
    decreases h - c
  {
    ConditionFromHere(s, lo, h);
    if c != h && GroupFrom(s, h).None? {
      var h0 := h - 1;
      ConditionFromDown(s, lo, h, h0);
      ConditionFromComplete(s, lo, h0, c);
    }
  }

  /** The search for `WHERE` at `w`: the pattern there when it matches. */
  lemma FindConditionHere(s: string, w: nat)
    requires w <= |s|
    ensures ConditionAtWhere(s, w).Some? ==> FindCondition(s, w) == ConditionAtWhere(s, w)
    ensures ConditionAtWhere(s, w).None? && w == |s| ==> FindCondition(s, w).None?
  {
  }

  /** The search moves on to `w1` when the pattern does not match at `w`. */
  lemma FindConditionOn(s: string, w: nat, w1: nat)
    requires w < |s| && w1 == w + 1 && ConditionAtWhere(s, w).None?
    ensures FindCondition(s, w) == FindCondition(s, w1)
  {
  }

  /** The pattern at `w`, with the bounds of its start named `lo` and `h`. */
  lemma ConditionAtWhereIs(s: string, w: nat, lo: nat, h: nat)
    requires w <= |s| && KeywordAt(s, w, "WHERE") && lo == w + 6 && h == SkipWs(s, w + 5) && h > w + 5
    ensures ConditionAtWhere(s, w) == ConditionFrom(s, lo, h)
  {
  }

  /** The condition comes from the leftmost `WHERE` at which the pattern matches. */
  lemma {:induction false} FindConditionFirst(s: string, w0: nat, w: nat)
    requires w0 <= w <= |s| && ConditionAtWhere(s, w).Some?
    requires forall j :: w0 <= j < w ==> ConditionAtWhere(s, j).None?
    ensures FindCondition(s, w0) == ConditionAtWhere(s, w)
    decreases w - w0
  {
    FindConditionHere(s, w0);
    if w0 != w {
      var w1 := w0 + 1;
      FindConditionOn(s, w0, w1);
      FindConditionFirst(s, w1, w);
    }
  }

  lemma {:induction false} FindConditionSound(s: string, w0: nat)
    requires w0 <= |s| && FindCondition(s, w0).Some?
    ensures exists w :: w0 <= w <= |s| && FindCondition(s, w0) == ConditionAtWhere(s, w)
    decreases |s| - w0
  {
    FindConditionHere(s, w0);
    if ConditionAtWhere(s, w0).None? {
      var w1 := w0 + 1;
      FindConditionOn(s, w0, w1);
      FindConditionSound(s, w1);
    }
  }

  lemma {:induction false} FindConditionComplete(s: string, w0: nat, w: nat)
    requires w0 <= w <= |s| && ConditionAtWhere(s, w).Some?
    ensures FindCondition(s, w0).Some?
    decreases w - w0
  {
    FindConditionHere(s, w0);
    if w0 != w && ConditionAtWhere(s, w0).None? {
      var w1 := w0 + 1;
      FindConditionOn(s, w0, w1);
      FindConditionComplete(s, w1, w);
    }
  }

  /** The group from `c`, with `c + 1` named `c1`. */
  lemma GroupFromIs(s: string, c: nat, c1: nat)
    requires c <= |s| && c1 == c + 1
    ensures GroupFrom(s, c) == LazyCondition(s, c, c1)
  {
  }

  /** A match at `(w, c, e)` makes the start search at `w` find something. */
  lemma ConditionMatchFound(s: string, w: nat, c: nat, e: nat)
    requires ConditionMatch(s, w, c, e)
    ensures ConditionAtWhere(s, w).Some?
  {
    var lo, h, c1 := w + 6, SkipWs(s, w + 5), c + 1;
    ConditionAtWhereIs(s, w, lo, h);
    LazyConditionComplete(s, c, c1, e);
    GroupFromIs(s, c, c1);
    ConditionFromComplete(s, lo, h, c);
  }

  /** What the start search at `w` finds is a match with `WHERE` at `w`. */
  lemma ConditionAtWhereIsMatch(s: string, w: nat)
    requires w <= |s| && ConditionAtWhere(s, w).Some?
    ensures exists c: nat, e: nat :: ConditionMatch(s, w, c, e) && ConditionAtWhere(s, w) == Some(MatchedCondition(s, c, e))
  {
    var lo, h := w + 6, SkipWs(s, w + 5);
    ConditionAtWhereIs(s, w, lo, h);
    ConditionFromSound(s, lo, h);
    var c :| lo <= c <= h && ConditionFrom(s, lo, h) == GroupFrom(s, c);
    var c1 := c + 1;
    GroupFromIs(s, c, c1);
    LazyConditionSound(s, c, c, c1);
    var e :| c1 <= e <= |s| && NoLineTerminator(s, c, e) && FindOperatorValue(s, SkipWs(s, e), 0).Some? &&
             LazyCondition(s, c, c1) == Some(MatchedCondition(s, c, e));
    assert ConditionMatch(s, w, c, e);
  }

  /** Every condition read is a match of the pattern: the field is the group,
      the operator and the value are what follows it. */
  lemma FindConditionIsMatch(s: string, w0: nat)
    requires w0 <= |s| && FindCondition(s, w0).Some?
    ensures exists w: nat, c: nat, e: nat :: w0 <= w && ConditionMatch(s, w, c, e) && FindCondition(s, w0) == Some(MatchedCondition(s, c, e))
  {
    FindConditionSound(s, w0);
    var w :| w0 <= w <= |s| && FindCondition(s, w0) == ConditionAtWhere(s, w);
    ConditionAtWhereIsMatch(s, w);
  }

  /** No condition is read exactly when the pattern matches nowhere from `w0`. */
  lemma FindConditionNone(s: string, w0: nat)
    requires w0 <= |s|
    ensures FindCondition(s, w0).None? <==> forall w: nat, c: nat, e: nat :: w0 <= w ==> !ConditionMatch(s, w, c, e)
  {
    if FindCondition(s, w0).Some? {
      FindConditionIsMatch(s, w0);
    } else {
      forall w: nat, c: nat, e: nat | w0 <= w && ConditionMatch(s, w, c, e) ensures false {
        ConditionMatchFound(s, w, c, e);
        FindConditionComplete(s, w0, w);
      }
    }
  }

  /** Under the start search at `w`, the lazy group from `c` is the first end. */
  lemma GroupFromFirst(s: string, w: nat, c: nat, e: nat)
    requires ConditionMatch(s, w, c, e)
    requires forall e': nat :: e' < e ==> !ConditionMatch(s, w, c, e')
    ensures GroupFrom(s, c) == Some(MatchedCondition(s, c, e))
  {
    var c1 := c + 1;
    forall j | c1 <= j < e ensures OperatorValueAfter(s, j).None? {
      assert !ConditionMatch(s, w, c, j);
    }
    LazyConditionFirst(s, c, c1, e);
    GroupFromIs(s, c, c1);
  }

  /** A start after `c` that finds something would be a match there. */
  lemma GroupFromMatches(s: string, w: nat, j: nat)
    requires KeywordAt(s, w, "WHERE") && w + 5 < j <= SkipWs(s, w + 5) && GroupFrom(s, j).Some?
    ensures exists e: nat :: ConditionMatch(s, w, j, e)
  {
    var j1 := j + 1;
    GroupFromIs(s, j, j1);
    LazyConditionSound(s, j, j, j1);
    var e :| j1 <= e <= |s| && NoLineTerminator(s, j, e) && FindOperatorValue(s, SkipWs(s, e), 0).Some? &&
             LazyCondition(s, j, j1) == Some(MatchedCondition(s, j, e));
    assert ConditionMatch(s, w, j, e);
  }

  /** The condition read is the engine's match: the leftmost `WHERE`, the
      longest run of white space after it, then the shortest group. */
  lemma FindConditionLeftmost(s: string, w0: nat, w: nat, c: nat, e: nat)
    requires w0 <= w && ConditionMatch(s, w, c, e)
    requires forall j: nat, c': nat, e': nat :: w0 <= j < w ==> !ConditionMatch(s, j, c', e')
    requires forall c': nat, e': nat :: c < c' ==> !ConditionMatch(s, w, c', e')
    requires forall e': nat :: e' < e ==> !ConditionMatch(s, w, c, e')
    ensures FindCondition(s, w0) == Some(MatchedCondition(s, c, e))
  {
    var lo, h := w + 6, SkipWs(s, w + 5);
    GroupFromFirst(s, w, c, e);
    forall j | c < j <= h ensures GroupFrom(s, j).None? {
      if GroupFrom(s, j).Some? {
        GroupFromMatches(s, w, j);
      }
    }
    ConditionFromFirst(s, lo, h, c);
    ConditionAtWhereIs(s, w, lo, h);
    forall j | w0 <= j < w ensures ConditionAtWhere(s, j).None? {
      if ConditionAtWhere(s, j).Some? {
        ConditionAtWhereIsMatch(s, j);
      }
    }
    FindConditionFirst(s, w0, w);
  }

  /** `WHERE age > 18` reads the field `age`, the operator `>` and the number 18. */
  lemma FindConditionExample()
    ensures FindCondition("WHERE age > 18", 0) == Some(Condition("age", ">", Some(Num("18"))))
  {
    var s := "WHERE age > 18";
    ExampleSpaces(s);
    ExampleOperators(s);
    ExampleMatch(s);
    forall e': nat | e' < 9 ensures !ConditionMatch(s, 0, 6, e') {
      if 6 < e' {
        assert e' == 7 || e' == 8;
      }
    }
    FindConditionLeftmost(s, 0, 0, 6, 9);
  }

  lemma ExampleSpaces(s: string)
    requires s == "WHERE age > 18"
    ensures SkipWs(s, 5) == 6 && SkipWs(s, 7) == 7 && SkipWs(s, 8) == 8
    ensures SkipWs(s, 9) == 10 && SkipWs(s, 11) == 12
  {
  }

  lemma ExampleOperators(s: string)
    requires s == "WHERE age > 18"
    ensures FindOperatorValue(s, 7, 0) == None && FindOperatorValue(s, 8, 0) == None
    ensures FindOperatorValue(s, 10, 0) == Some((">", "18"))
  {
    NoOperatorAt(s, 7);
    NoOperatorAt(s, 8);
    ExampleValue(s);
  }

  lemma ExampleValue(s: string)
    requires s == "WHERE age > 18"
    ensures FindOperatorValue(s, 10, 0) == Some((">", "18"))
  {
    ExampleSpaces(s);
    OperatorLiterals(s, 10);
    FindOperatorIsLongest(s, 10);
    ExampleWord(s);
  }

  lemma ExampleWord(s: string)
    requires s == "WHERE age > 18"
    ensures FindValueAt(s, 12) == Some("18")
  {
    FindWordValue(s, 12, 14);
    assert s[12..14] == "18";
  }

  /** Where no operator is written, none is read. */
  lemma NoOperatorAt(s: string, g: nat)
    requires g <= |s| && (g == |s| || (s[g] != '=' && s[g] != '<' && s[g] != '>' && (s[g] != '!' || g + 1 == |s| || s[g + 1] != '=')))
    ensures FindOperatorValue(s, g, 0) == None && Syntax.LongestComparison(s, g) == None
  {
    OperatorLiterals(s, g);
    OperatorPassed(s, g, 0);
    OperatorPassed(s, g, 1);
    OperatorPassed(s, g, 2);
    OperatorPassed(s, g, 3);
    OperatorPassed(s, g, 4);
    OperatorPassed(s, g, 5);
    OperatorsAfter(s, g, 6);
  }

  lemma ExampleMatch(s: string)
    requires s == "WHERE age > 18"
    ensures ConditionMatch(s, 0, 6, 9) && MatchedCondition(s, 6, 9) == Condition("age", ">", Some(Num("18")))
  {
    ExampleWhere(s);
    ExampleSpaces(s);
    ExampleValue(s);
    CleanDigitsExample();
    assert s[6..9] == "age";
  }

  lemma ExampleWhere(s: string)
    requires s == "WHERE age > 18"
    ensures KeywordAt(s, 0, "WHERE")
  {
    KeywordAtOfLiteral(s, 0, "WHERE");
  }

  lemma CleanDigitsExample()
    ensures Clean("18") == Num("18")
  {
    assert Upper("18")[0] == '1';
    assert RunEnd("18", 2, IsDigit) == 2;
    assert RunEnd("18", 1, IsDigit) == 2;
    assert NumberLiteralLength("18") == 2;
    assert "18"[0..] == "18";
    assert "18"[..2] == "18";
  }

  /** `KW\s+\d` matches at `i`: the keyword in any case, white space, then a digit. */
  predicate NumberAt(s: string, kw: string, i: nat) {
    KeywordAt(s, i, kw) && var m := SkipWs(s, i + |kw|); m > i + |kw| && m < |s| && IsDigit(s[m])
  }

  /** The digits `(\d+)` captures at a match at `i`: the whole run after the white space. */
  function DigitRun(s: string, kw: string, i: nat): (d: string)
    requires NumberAt(s, kw, i)
    ensures d != [] && forall k :: 0 <= k < |d| ==> IsDigit(d[k])
    ensures var m := SkipWs(s, i + |kw|); LiteralAt(s, m, d) && (m + |d| == |s| || !IsDigit(s[m + |d|]))
  {
    var m := SkipWs(s, i + |kw|);
    var e := RunEnd(s, m, IsDigit);
    assert forall k :: 0 <= k < |s[m..e]| ==> IsDigit(s[m..e][k]) by {
      forall k | 0 <= k < |s[m..e]| ensures IsDigit(s[m..e][k]) { assert s[m..e][k] == s[m + k]; }
    }
    s[m..e]
  }

  /** `/KW\s+(\d+)/ui` at its leftmost match from `i`, read by `parseInt`. */
  function NumberAfter(s: string, kw: string, i: nat): (r: Option<nat>)
    requires i <= |s|
    decreases |s| - i
  {
    if NumberAt(s, kw, i) then Some(DigitsValue(DigitRun(s, kw, i)))
    else if i == |s| then None
    else NumberAfter(s, kw, i + 1)
  }

  /** The number read is the one after the leftmost match. */
  lemma {:induction false} NumberAfterLeftmost(s: string, kw: string, i: nat, k: nat)
    requires i <= k <= |s| && NumberAt(s, kw, k)
    requires forall j :: i <= j < k ==> !NumberAt(s, kw, j)
    ensures NumberAfter(s, kw, i) == Some(DigitsValue(DigitRun(s, kw, k)))
    decreases k - i
  {
    if i < k {
      NumberAfterSkips(s, kw, i);
      NumberAfterLeftmost(s, kw, i + 1, k);
    } else {
      NumberAfterHere(s, kw, k);
    }
  }

  lemma NumberAfterHere(s: string, kw: string, k: nat)
    requires k <= |s| && NumberAt(s, kw, k)
    ensures NumberAfter(s, kw, k) == Some(DigitsValue(DigitRun(s, kw, k)))
  {
  }

  /** Nothing is read exactly when no position from `i` on matches. */
  lemma {:induction false} NumberAfterNone(s: string, kw: string, i: nat)
    requires i <= |s|
    ensures NumberAfter(s, kw, i).None? <==> forall k :: i <= k <= |s| ==> !NumberAt(s, kw, k)
    decreases |s| - i
  {
    if !NumberAt(s, kw, i) && i < |s| {
      NumberAfterSkips(s, kw, i);
      NumberAfterNone(s, kw, i + 1);
    }
  }

  lemma NumberAfterSkips(s: string, kw: string, i: nat)
    requires i < |s| && !NumberAt(s, kw, i)
    ensures NumberAfter(s, kw, i) == NumberAfter(s, kw, i + 1)
  {
  }

  /** `findCommand.replace(/\bDISTINCT\b/i, "").trim()`: the first DISTINCT is cut out. */
  function WithoutDistinct(fc: string, d: nat): string
    requires d + 8 <= |fc|
  {
    Trim(fc[..d] + fc[d + 8..])
  }

  /** The selected columns: `*` selects all of them (absent), an empty list none. */
  function SelectedColumns(fc: string): (r: Option<seq<string>>)
    ensures var cols := Trim(Substring(fc, IndexOf(fc, "FIND") + 5, |fc|));
            (r.None? <==> cols == "*") && (cols == "" ==> r == Some([])) &&
            (cols != "" && cols != "*" ==>
               |r.value| == |Split(cols, ',')| &&
               forall k :: 0 <= k < |r.value| ==> r.value[k] == Trim(Split(cols, ',')[k]))
  {
    var cols := Trim(Substring(fc, IndexOf(fc, "FIND") + 5, |fc|));
    if cols == "" then Some([])
    else if cols == "*" then None
    else Some(TrimAll(Split(cols, ',')))
  }

  /** FIND: the table after `IN`, DISTINCT, the columns between FIND and `IN`
      (the search for FIND is case-sensitive), and the condition, OFFSET and
      LIMIT, each read only when its keyword stands as a word somewhere. */
  function FindRequestOf(s: string): (r: Parse<FindRequest>)
    ensures r.Fails? <==> SplitAtIn(s).Fails?
    ensures r.Parsed? ==> r.value.table == Split(Trim(SplitAtIn(s).value.1), ' ')[0]
    ensures r.Parsed? && SearchWord(s, "WHERE", 0).None? ==> r.value.condition.None?
    ensures r.Parsed? && SearchWord(s, "LIMIT", 0).None? ==> r.value.limit.None?
    ensures r.Parsed? && SearchWord(s, "OFFSET", 0).None? ==> r.value.offset.None?
    ensures r.Parsed? ==> (r.value.distinct <==> SearchWord(Trim(SplitAtIn(s).value.0), "DISTINCT", 0).Some?)
    ensures r.Parsed? ==>
              var fc := Trim(SplitAtIn(s).value.0);
              var d := SearchWord(fc, "DISTINCT", 0);
              r.value.columns == SelectedColumns(if d.Some? then WithoutDistinct(fc, d.value) else fc)
    ensures r.Parsed? && SearchWord(s, "WHERE", 0).Some? ==> r.value.condition == FindCondition(s, 0)
    ensures r.Parsed? && SearchWord(s, "LIMIT", 0).Some? ==> r.value.limit == NumberAfter(s, "LIMIT", 0)
    ensures r.Parsed? && SearchWord(s, "OFFSET", 0).Some? ==> r.value.offset == NumberAfter(s, "OFFSET", 0)
  {
    match SplitAtIn(s)
    case Fails(m) => Fails(m)
    case Parsed((before, after)) =>
      var fc := Trim(before);
      var d := SearchWord(fc, "DISTINCT", 0);
      var fc' := if d.Some? then WithoutDistinct(fc, d.value) else fc;
      Parsed(FindRequest(
        Split(Trim(after), ' ')[0],
        d.Some?,
        SelectedColumns(fc'),
        if SearchWord(s, "WHERE", 0).Some? then FindCondition(s, 0) else None,
        if SearchWord(s, "OFFSET", 0).Some? then NumberAfter(s, "OFFSET", 0) else None,
        if SearchWord(s, "LIMIT", 0).Some? then NumberAfter(s, "LIMIT", 0) else None))
  }

  // ---------------------------------------------------------------- DELETE

  /** What DELETE passes on: a table to show (the pattern's WHERE part absent),
      or a table and a condition. */
  datatype DeleteRequest = ShowNamed(table: string) | DeleteWhere(table: string, condition: Condition)

  /** `['"]?[\w\s]+['"]?` covers the whole of `u`. */
  predicate DeleteValueShape(u: string) {
    var a := if u != [] && IsQuote(u[0]) then 1 else 0;
    var e := RunEnd(u, a, c => IsWordChar(c) || IsWs(c));
    e > a && (e == |u| || (e + 1 == |u| && IsQuote(u[e])))
  }

  /** `\s*` before the value: the value starts at the latest position from `p`
      down to `lo` at which it covers the rest of the command. */
  function DeleteValueStart(s: string, lo: nat, p: nat): (r: Option<nat>)
    requires lo <= p <= |s|
    ensures r.Some? ==> lo <= r.value <= p && DeleteValueShape(s[r.value..])
    decreases p
  {
    if DeleteValueShape(s[p..]) then Some(p)
    else if p > lo then DeleteValueStart(s, lo, p - 1)
    else None
  }

  /** `(=|!=|>|<|>=|<=)\s*(VALUE)$` at `g`, the operators in the source's order. */
  function DeleteOperatorValue(s: string, g: nat, n: nat): (r: Option<(string, nat)>)
    requires g <= |s|
    ensures r.Some? ==> r.value.0 in Syntax.ComparisonOperators && LiteralAt(s, g, r.value.0)
    ensures r.Some? ==> g + |r.value.0| <= r.value.1 <= |s| && DeleteValueShape(s[r.value.1..])
    decreases |Syntax.ComparisonOperators| - n
  {
    if n >= |Syntax.ComparisonOperators| then None
    else
      var op := Syntax.ComparisonOperators[n];
      var p := if LiteralAt(s, g, op) then DeleteValueStart(s, g + |op|, SkipWs(s, g + |op|)) else None;
      if p.Some? then Some((op, p.value)) else DeleteOperatorValue(s, g, n + 1)
  }

  /** The command starts with `DELETE FROM `, in any casing, single-spaced. */
  predicate DeleteFromAt(s: string) {
    12 <= |s| && KeywordAt(s, 0, "DELETE") && s[6] == ' ' && KeywordAt(s, 7, "FROM") && s[11] == ' '
  }

  /** ` WHERE (\w+)\s*(OP)\s*(VALUE)$` after the table name `s[12..t]`. */
  function DeleteWhereFrom(s: string, t: nat): (r: Parse<DeleteRequest>)
    requires 12 <= t <= |s|
    ensures r.Fails? ==> r.message == CannotRead("null", "1")
    ensures r.Parsed? ==> r.value.DeleteWhere? && r.value.table == s[12..t] && KeywordAt(s, t, " WHERE ")
  {
    if !KeywordAt(s, t, " WHERE ") then Fails(CannotRead("null", "1"))
    else
      var f := t + 7;
      var fe := WordEnd(s, f);
      if fe == f then Fails(CannotRead("null", "1"))
      else
        match DeleteOperatorValue(s, SkipWs(s, fe), 0)
        case None => Fails(CannotRead("null", "1"))
        case Some((op, p)) => Parsed(DeleteWhere(s[12..t], Condition(s[f..fe], op, Some(Clean(s[p..])))))
  }

  /** `/^DELETE FROM (\w+)(?: WHERE (\w+)\s*(OP)\s*(VALUE))?$/ui` with single
      spaces; when it does not match, reading its first group throws. */
  function DeleteRequestOf(s: string): (r: Parse<DeleteRequest>)
    ensures r.Fails? ==> r.message == CannotRead("null", "1")
    ensures r.Parsed? ==> DeleteFromAt(s) && 12 < |s|
    ensures r.Parsed? && r.value.ShowNamed? ==> s == s[..12] + r.value.table && r.value.table != []
    ensures r.Parsed? && r.value.ShowNamed? ==> forall k :: 12 <= k < |s| ==> IsWordChar(s[k])
  {
    if !DeleteFromAt(s) then Fails(CannotRead("null", "1"))
    else
      
      var t := WordEnd(s, 12);
      if t == 12 then Fails(CannotRead("null", "1"))
      else if t == |s| then
        assert s == s[..12] + s[12..];
        Parsed(ShowNamed(s[12..]))
      else DeleteWhereFrom(s, t)
  }

  /** A DELETE the validator accepts always names a WHERE clause, so the
      source's branch that shows the whole table is never taken for it. */
  lemma ValidatedDeleteHasWhere(s: string)
    requires Syntax.DeleteShapeBounded(s)
    ensures !(DeleteRequestOf(s).Parsed? && DeleteRequestOf(s).value.ShowNamed?)
  {
  }

  /** The validator as written accepts a DELETE whose WHERE is glued to the table
      name; the executor's pattern then reads it as a table without a condition. */
  lemma GluedWhereReachesShowTable()
    ensures Syntax.DeleteShape(GluedWhere)
    ensures DeleteRequestOf(GluedWhere) == Parsed(ShowNamed(GluedWhere[12..]))
    ensures GluedWhere[12..] == "tWHEREaIN"
  {
    GluedWhereIsValid();
    GluedWhereShowsTable();
    GluedWhereTableName();
  }

  lemma GluedWhereTableName()
    ensures GluedWhere[12..] == "tWHEREaIN"
  {
  }

  const GluedWhere := "DELETE FROM tWHEREaIN"

  /** The validator's pattern, step by step on the glued command. */
  lemma GluedWhereIsValid()
    ensures Syntax.DeleteShape(GluedWhere)
  {
    var s := GluedWhere;
    GluedWhereHead();
    GluedWhereClause();
    GluedWhereSpaces();
    assert Syntax.NameThen(s, 12, 13, Syntax.WhereAfter(s, Syntax.OperatorAfter(s)));
  }

  lemma GluedWhereHead()
    ensures Syntax.DeleteHead(GluedWhere) == Some(12)
  {
    GluedWhereKeywords();
    GluedWhereSpaces();
  }

  lemma GluedWhereKeywords()
    ensures KeywordAt(GluedWhere, 0, "DELETE") && KeywordAt(GluedWhere, 7, "FROM")
  {
    var s := GluedWhere;
    assert s[0..6] == "DELETE";
    KeywordAtOfLiteral(s, 0, "DELETE");
    GluedWhereFrom();
  }

  lemma GluedWhereFrom()
    ensures KeywordAt(GluedWhere, 7, "FROM")
  {
    var s := GluedWhere;
    assert s[7..11] == "FROM" by {
      assert s[7] == 'F' && s[8] == 'R' && s[9] == 'O' && s[10] == 'M';
    }
    KeywordAtOfLiteral(s, 7, "FROM");
  }

  lemma GluedWhereSpaces()
    ensures SkipWs(GluedWhere, 6) == 7 && SkipWs(GluedWhere, 11) == 12 && SkipWs(GluedWhere, 13) == 13
  {
  }

  lemma GluedWhereClause()
    ensures Syntax.WhereThen(GluedWhere, 13, Syntax.OperatorAfter(GluedWhere))
  {
    var s := GluedWhere;
    KeywordAtOfLiteral(s, 13, "WHERE");
    assert SkipWs(s, 18) == 18;
    GluedWhereName();
  }

  lemma GluedWhereName()
    ensures IsWordChar(GluedWhere[18]) && Syntax.NameThen(GluedWhere, 18, 19, Syntax.OperatorAfter(GluedWhere))
  {
    GluedWhereOperator();
    assert SkipWs(GluedWhere, 19) == 19;
  }

  lemma GluedWhereOperator()
    ensures Syntax.OperatorThenValue(GluedWhere, 19)
  {
    var s := GluedWhere;
    KeywordAtOfLiteral(s, 19, "IN");
    assert Syntax.ValueTail(s[21..]) by {
      assert s[21..] == [];
      assert Syntax.DecimalDigits([]);
    }
    assert Syntax.PatternOperators[8] == "IN";
    assert Syntax.OperatorFromThenValue(s, 19, 8);
  }

  lemma GluedWhereShowsTable()
    ensures DeleteRequestOf(GluedWhere) == Parsed(ShowNamed(GluedWhere[12..]))
  {
    GluedWherePrefix();
    GluedWhereTableRun();
    DeleteWithoutWhere(GluedWhere);
  }

  lemma GluedWherePrefix()
    ensures DeleteFromAt(GluedWhere)
  {
    GluedWhereKeywords();
  }

  lemma GluedWhereTableRun()
    ensures WordEnd(GluedWhere, 12) == |GluedWhere|
  {
    var s := GluedWhere;
    assert WordEnd(s, 19) == 21;
    assert WordEnd(s, 16) == 21;
    assert WordEnd(s, 12) == 21;
  }

  /** The executor shows the table when the command ends right after its name. */
  lemma DeleteWithoutWhere(s: string)
    requires DeleteFromAt(s) && |s| > 12 && WordEnd(s, 12) == |s|
    ensures DeleteRequestOf(s) == Parsed(ShowNamed(s[12..]))
  {
  }

  // ---------------------------------------------------------------- UPDATE

  /** What UPDATE passes on: the table, the SET names and values (one value per
      name), and the condition. */
  datatype UpdateRequest = UpdateRequest(table: string, names: seq<string>, values: seq<Value>, condition: Condition)

  const UpdateFormatError := "Invalid UPDATE command format."

  /** The alternation order of the operator in the UPDATE pattern: as written,
      `>` comes before `>=` and `<` before `<=`; corrected, longer operators come first. */
  function UpdateOperators(reading: Syntax.Reading): seq<string> {
    if reading == Syntax.AsWritten then Syntax.ComparisonOperators
    else ["=", "!=", ">=", "<=", ">", "<"]
  }

  /** The condition value `\s*(?:"([^"]*)"|'([^']*)'|([^'",]+))` after the operator
      at `o`: `None` when it does not match; `Some(None)` when the quoted text is
      empty (the source then leaves the value undefined). When no form fits at the
      end of the white space, the bare form takes the last white-space character. */
  function UpdateValueAt(s: string, o: nat): (r: Option<Option<Value>>)
    requires o <= |s|
  {
    var h := SkipWs(s, o);
    if h < |s| && IsQuote(s[h]) && RunEnd(s, h + 1, c => c != s[h]) < |s| then
      var q := RunEnd(s, h + 1, c => c != s[h]);
      Some(if q > h + 1 then Some(Clean(s[h + 1..q])) else None)
    else if h < |s| && !IsQuote(s[h]) && s[h] != ',' then
      Some(Some(Clean(s[h..RunEnd(s, h, c => !IsQuote(c) && c != ',')])))
    else if h > o then Some(Some(Clean(s[h - 1..h])))
    else None
  }

  /** The first operator of `ops`, from index `n`, that stands at `g` and is followed by a value. */
  function UpdateOperatorValue(s: string, g: nat, ops: seq<string>, n: nat): (r: Option<(string, Option<Value>)>)
    requires g <= |s|
    ensures r.Some? ==> r.value.0 in ops && LiteralAt(s, g, r.value.0)
    decreases |ops| - n
  {
    if n >= |ops| then None
    else
      var v := if LiteralAt(s, g, ops[n]) then UpdateValueAt(s, g + |ops[n]|) else None;
      if v.Some? then Some((ops[n], v.value)) else UpdateOperatorValue(s, g, ops, n + 1)
  }

  /** `WHERE\s+(\w+)\s*(OP)\s*VALUE` at `w`. */
  function UpdateCondition(s: string, w: nat, reading: Syntax.Reading): (r: Option<Condition>)
    requires w <= |s|
    ensures r.Some? ==> KeywordAt(s, w, "WHERE")
  {
    if !KeywordAt(s, w, "WHERE") then None
    else
      var m := SkipWs(s, w + 5);
      var fe := WordEnd(s, m);
      if m == w + 5 || fe == m then None
      else
        match UpdateOperatorValue(s, SkipWs(s, fe), UpdateOperators(reading), 0)
        case None => None
        case Some((op, v)) => Some(Condition(s[m..fe], op, v))
  }

  /** The condition the pattern reads when the SET clause begun at `d` ends at `j`. */
  function SplitAt(s: string, d: nat, reading: Syntax.Reading): nat -> Option<Condition> {
    j => if d <= j <= |s| && Syntax.SetClause(s[d..j]) then UpdateCondition(s, j, reading) else None
  }

  /** The last position in `[d, w]` at which `at` reads a condition, scanning down from `w`. */
  function LastSplit(at: nat -> Option<Condition>, d: nat, w: nat): (r: Option<(nat, Condition)>)
    requires d <= w
    ensures r.Some? ==> d <= r.value.0 <= w && at(r.value.0) == Some(r.value.1)
    decreases w
  {
    if at(w).Some? then Some((w, at(w).value))
    else if w > d then LastSplit(at, d, w - 1)
    else None
  }

  /** Nothing after the position found reads a condition, and nothing at all
      when none is found. */
  lemma {:induction false} LastSplitIsLast(at: nat -> Option<Condition>, d: nat, w: nat)
    requires d <= w
    ensures LastSplit(at, d, w).Some? ==> forall j: nat :: LastSplit(at, d, w).value.0 < j <= w ==> at(j).None?
    ensures LastSplit(at, d, w).None? ==> forall j: nat :: d <= j <= w ==> at(j).None?
    decreases w
  {
    if at(w).None? && w > d {
      LastSplitIsLast(at, d, w - 1);
    }
  }

  /** Where the SET clause begun at `d` ends: the last WHERE, at or before `w`,
      in front of which the clause is complete and after which a condition
      follows (the greedy clause gives back text until the rest matches). */
  function UpdateSplit(s: string, d: nat, w: nat, reading: Syntax.Reading): Option<(nat, Condition)>
    requires d <= w <= |s|
  {
    LastSplit(SplitAt(s, d, reading), d, w)
  }

  /** The pattern can split at `w`: a whole SET clause from `d`, then a condition. */
  predicate SplitPoint(s: string, d: nat, w: nat, reading: Syntax.Reading) {
    d <= w <= |s| && Syntax.SetClause(s[d..w]) && UpdateCondition(s, w, reading).Some?
  }

  lemma SplitAtIsSplitPoint(s: string, d: nat, j: nat, reading: Syntax.Reading)
    ensures SplitAt(s, d, reading)(j).Some? <==> SplitPoint(s, d, j, reading)
    ensures SplitPoint(s, d, j, reading) ==> SplitAt(s, d, reading)(j) == UpdateCondition(s, j, reading)
  {
  }

  /** The split found is the last one possible, and none is found only when
      there is none. */
  lemma UpdateSplitLast(s: string, d: nat, w: nat, reading: Syntax.Reading)
    requires d <= w <= |s|
    ensures UpdateSplit(s, d, w, reading).Some? ==>
              var x := UpdateSplit(s, d, w, reading).value.0;
              d <= x <= w && SplitPoint(s, d, x, reading) && UpdateCondition(s, x, reading) == Some(UpdateSplit(s, d, w, reading).value.1) &&
              forall j: nat :: x < j <= w ==> !SplitPoint(s, d, j, reading)
    ensures UpdateSplit(s, d, w, reading).None? ==> forall j: nat :: d <= j <= w ==> !SplitPoint(s, d, j, reading)
  {
    var at := SplitAt(s, d, reading);
    var r := LastSplit(at, d, w);
    LastSplitIsLast(at, d, w);
    if r.Some? {
      SplitAtIsSplitPoint(s, d, r.value.0, reading);
      forall j: nat | r.value.0 < j <= w ensures !SplitPoint(s, d, j, reading) {
        SplitAtIsSplitPoint(s, d, j, reading);
      }
    } else {
      forall j: nat | d <= j <= w ensures !SplitPoint(s, d, j, reading) {
        SplitAtIsSplitPoint(s, d, j, reading);
      }
    }
  }

  /** `setClause.match(/\w+\s*=\s*(?:"[^"]*"|'[^']*'|[^'",]*)/g) || []`: the pairs
      a left-to-right scan finds in `t[i..]`. */
  function SetPairsFrom(t: string, i: nat): (ps: seq<string>)
    requires i <= |t|
    ensures forall k :: 0 <= k < |ps| ==> '=' in ps[k]
    decreases |t| - i
  {
    if i == |t| then []
    else
      match Syntax.SetPairEnd(t, i)
      case Some(e) =>
        SetPairHasEquals(t, i);
        [t[i..e]] + SetPairsFrom(t, e)
      case None => SetPairsFrom(t, i + 1)
  }

  lemma SetPairHasEquals(t: string, i: nat)
    requires i <= |t| && Syntax.SetPairEnd(t, i).Some?
    ensures '=' in t[i..Syntax.SetPairEnd(t, i).value]
  {
    var e := SkipWs(t, WordEnd(t, i));
    assert t[i..Syntax.SetPairEnd(t, i).value][e - i] == '=';
  }

  /** A pair's name: the text before its first `=`, trimmed. */
  function SetName(pair: string): string {
    Trim(Split(pair, '=')[0])
  }

  /** A pair's value text. As written, the text after its last `=`
      (`split('=').pop()`); corrected, everything after its first `=`. */
  function SetValueText(pair: string, reading: Syntax.Reading): string {
    if reading == Syntax.AsWritten then
      var pieces := Split(pair, '='); pieces[|pieces| - 1]
    else
      var k := IndexOf(pair, "="); if k < 0 then pair else pair[k + 1..]
  }

  /** `replace(/\\(["'])/g, "$1")`: a backslash before a quote is dropped. */
  function UnescapeQuotes(t: string): (u: string)
    ensures |u| <= |t|
    decreases |t|
  {
    if |t| >= 2 && t[0] == '\\' && IsQuote(t[1]) then [t[1]] + UnescapeQuotes(t[2..])
    else if t == [] then []
    else [t[0]] + UnescapeQuotes(t[1..])
  }

  /** Text without backslashes is kept as it is. */
  lemma {:induction false} UnescapePlain(t: string)
    requires '\\' !in t
    ensures UnescapeQuotes(t) == t
  {
    if t != [] {
      assert t[0] != '\\';
      UnescapePlain(t[1..]);
      assert t == [t[0]] + t[1..];
    }
  }

  /** Writing text with a backslash before each quote, as `UnescapeQuotes` reads it back. */
  function EscapeQuotes(x: string): (t: string)
    ensures |t| >= |x|
    ensures x != [] ==> t != [] && !IsQuote(t[0])
  {
    if x == [] then []
    else if IsQuote(x[0]) then ['\\', x[0]] + EscapeQuotes(x[1..])
    else [x[0]] + EscapeQuotes(x[1..])
  }

  /** Unescaping undoes the escaping of quotes, whatever backslashes the text holds. */
  lemma {:induction false} UnescapeEscapeQuotes(x: string)
    ensures UnescapeQuotes(EscapeQuotes(x)) == x
  {
    if x != [] {
      var t := EscapeQuotes(x);
      UnescapeEscapeQuotes(x[1..]);
      if IsQuote(x[0]) {
        assert t[2..] == EscapeQuotes(x[1..]);
      } else if x[0] == '\\' && x[1..] != [] {
        assert t[1..] == EscapeQuotes(x[1..]);
        assert !IsQuote(t[1]);
      } else {
        assert t[1..] == EscapeQuotes(x[1..]);
      }
      assert x == [x[0]] + x[1..];
    }
  }

  /** The second cleaning of a SET value: a string still starting and ending with
      a quote loses both ends and the backslashes before quotes. */
  function StripQuotes(v: Value): (r: Value)
    ensures !v.Str? ==> r == v
    ensures v.Str? && (v.text == [] || !IsQuote(v.text[0]) || !IsQuote(v.text[|v.text| - 1])) ==> r == v
  {
    match v
    case Str(t) =>
      if t != [] && IsQuote(t[0]) && IsQuote(t[|t| - 1]) then Str(UnescapeQuotes(Slice(t, 1, |t| - 1))) else v
    case _ => v
  }

  /** A string still wrapped in quotes, single or double and not necessarily the
      same, loses them and gets back the text whose quotes were escaped inside. */
  lemma StripQuotesEscaped(q: char, x: string, q': char)
    requires IsQuote(q) && IsQuote(q')
    ensures StripQuotes(Str([q] + EscapeQuotes(x) + [q'])) == Str(x)
  {
    var t := [q] + EscapeQuotes(x) + [q'];
    assert Slice(t, 1, |t| - 1) == EscapeQuotes(x);
    UnescapeEscapeQuotes(x);
  }

  function SetValue(pair: string, reading: Syntax.Reading): Value {
    StripQuotes(Clean(Trim(SetValueText(pair, reading))))
  }

  function SetNames(pairs: seq<string>): (r: seq<string>)
    ensures |r| == |pairs| && forall k :: 0 <= k < |r| ==> r[k] == SetName(pairs[k])
  {
    if pairs == [] then [] else [SetName(pairs[0])] + SetNames(pairs[1..])
  }

  function SetValues(pairs: seq<string>, reading: Syntax.Reading): (r: seq<Value>)
    ensures |r| == |pairs| && forall k :: 0 <= k < |r| ==> r[k] == SetValue(pairs[k], reading)
  {
    if pairs == [] then [] else [SetValue(pairs[0], reading)] + SetValues(pairs[1..], reading)
  }

  /** UPDATE: `^UPDATE\s+(\w+)\s+SET\s+(CLAUSE)\s*WHERE\s+(\w+)\s*(OP)\s*VALUE`;
      when it does not match the source throws its own message. What a match
      reads is stated by `UpdateRequestRead`. */
  function UpdateRequestOf(s: string, reading: Syntax.Reading): (r: Parse<UpdateRequest>)
    ensures r.Fails? ==> r.message == UpdateFormatError
  {
    match Syntax.UpdateHead(s)
    case None => Fails(UpdateFormatError)
    case Some((a, b, d)) =>
      match UpdateSplit(s, d, |s|, reading)
      case None => Fails(UpdateFormatError)
      case Some((w, condition)) =>
        var pairs := SetPairsFrom(s[d..w], 0);
        Parsed(UpdateRequest(s[a..b], SetNames(pairs), SetValues(pairs, reading), condition))
  }

  /** Without the `UPDATE name SET` head the match fails. */
  lemma UpdateRequestWithoutHead(s: string, reading: Syntax.Reading)
    requires Syntax.UpdateHead(s).None?
    ensures UpdateRequestOf(s, reading) == Fails(UpdateFormatError)
  {
  }

  /** After the head, the match fails exactly when there is no split point. */
  lemma UpdateRequestFails(s: string, reading: Syntax.Reading, a: nat, b: nat, d: nat)
    requires Syntax.UpdateHead(s) == Some((a, b, d))
    ensures UpdateRequestOf(s, reading).Fails? <==> forall j: nat :: d <= j <= |s| ==> !SplitPoint(s, d, j, reading)
  {
    UpdateSplitLast(s, d, |s|, reading);
  }

  /** A match reads the head's word as the table, the condition at the last
      split point, and the names and values of the SET pairs before it, in order. */
  lemma UpdateRequestRead(s: string, reading: Syntax.Reading, a: nat, b: nat, d: nat)
    requires Syntax.UpdateHead(s) == Some((a, b, d)) && UpdateRequestOf(s, reading).Parsed?
    ensures var r := UpdateRequestOf(s, reading).value;
            r.table == s[a..b] &&
            exists w: nat :: SplitPoint(s, d, w, reading) && (forall j: nat :: w < j <= |s| ==> !SplitPoint(s, d, j, reading)) &&
              UpdateCondition(s, w, reading) == Some(r.condition) &&
              var pairs := SetPairsFrom(s[d..w], 0);
              |r.names| == |r.values| == |pairs| &&
              forall k :: 0 <= k < |pairs| ==> r.names[k] == SetName(pairs[k]) && r.values[k] == SetValue(pairs[k], reading)
  {
    UpdateSplitLast(s, d, |s|, reading);
    var w := UpdateSplit(s, d, |s|, reading).value.0;
    assert SplitPoint(s, d, w, reading);
  }

  // ------------------------------------------------ the two UPDATE readings

  /** A text that starts with `=` is not a number, null or quoted: `clean` keeps it. */
  lemma CleanKeepsEqualsText(t: string)
    requires t != [] && t[0] == '='
    ensures Clean(t) == Str(t)
  {
    assert Upper(t)[0] == '=';
    assert SkipWs(t, 0) == 0;
    assert t[0..] == t;
    assert RunEnd(t, 0, IsDigit) == 0;
    assert NumberLiteralLength(t) == 0;
  }

  /** A condition value read from an `=` is the rest of the run, `=` included, as a string. */
  lemma ValueFromEquals(s: string, o: nat)
    requires o < |s| && s[o] == '='
    ensures var v := UpdateValueAt(s, o);
            v.Some? && v.value.Some? && v.value.value.Str? && v.value.value.text != [] && v.value.value.text[0] == '='
  {
    assert SkipWs(s, o) == o;
    var e := RunEnd(s, o, c => !IsQuote(c) && c != ',');
    assert UpdateValueAt(s, o) == Some(Some(Clean(s[o..e])));
    CleanKeepsEqualsText(s[o..e]);
  }

  /** An operator of `ops` that does not stand at `g` is passed over. */
  lemma OperatorPassedOver(s: string, g: nat, ops: seq<string>, n: nat)
    requires g < |s| && n < |ops| && ops[n] != [] && ops[n][0] != s[g]
    ensures UpdateOperatorValue(s, g, ops, n) == UpdateOperatorValue(s, g, ops, n + 1)
  {
    assert g + |ops[n]| <= |s| ==> s[g..g + |ops[n]|][0] == s[g];
  }

  /** An operator of `ops` that stands at `g` with a value after it is taken. */
  lemma OperatorTaken(s: string, g: nat, ops: seq<string>, n: nat, op: string)
    requires g <= |s| && n < |ops| && ops[n] == op && LiteralAt(s, g, op) && UpdateValueAt(s, g + |op|).Some?
    ensures UpdateOperatorValue(s, g, ops, n) == Some((op, UpdateValueAt(s, g + |op|).value))
  {
  }

  /** As written, in `WHERE id >= 5` the operator group takes `>` (it is tried
      before `>=`) and the value group takes the rest, `=` included, as a string. */
  lemma AsWrittenSplitsTwoCharOperator(s: string, g: nat, op: string)
    requires op == ">=" || op == "<="
    requires LiteralAt(s, g, op)
    ensures var r := UpdateOperatorValue(s, g, UpdateOperators(Syntax.AsWritten), 0);
            r.Some? && r.value.0 == [op[0]] && r.value.1.Some? && r.value.1.value.Str? &&
            r.value.1.value.text != [] && r.value.1.value.text[0] == '='
  {
    assert s[g] == op[0] && s[g + 1] == '=';
    ValueFromEquals(s, g + 1);
    assert s[g..g + 1] == [op[0]];
    if op == ">=" {
      AsWrittenGreaterEqual(s, g);
    } else {
      AsWrittenLessEqual(s, g);
    }
  }

  lemma AsWrittenGreaterEqual(s: string, g: nat)
    requires g < |s| && s[g] == '>' && LiteralAt(s, g, ">") && UpdateValueAt(s, g + 1).Some?
    ensures UpdateOperatorValue(s, g, UpdateOperators(Syntax.AsWritten), 0) == Some((">", UpdateValueAt(s, g + 1).value))
  {
    var ops := UpdateOperators(Syntax.AsWritten);
    OperatorPassedOver(s, g, ops, 0);
    OperatorPassedOver(s, g, ops, 1);
    OperatorTaken(s, g, ops, 2, ">");
  }

  lemma AsWrittenLessEqual(s: string, g: nat)
    requires g < |s| && s[g] == '<' && LiteralAt(s, g, "<") && UpdateValueAt(s, g + 1).Some?
    ensures UpdateOperatorValue(s, g, UpdateOperators(Syntax.AsWritten), 0) == Some(("<", UpdateValueAt(s, g + 1).value))
  {
    var ops := UpdateOperators(Syntax.AsWritten);
    OperatorPassedOver(s, g, ops, 0);
    OperatorPassedOver(s, g, ops, 1);
    OperatorPassedOver(s, g, ops, 2);
    OperatorTaken(s, g, ops, 3, "<");
  }

  /** Corrected, the two-character operator is taken whole, with the value after it. */
  lemma CorrectedKeepsTwoCharOperator(s: string, g: nat, op: string)
    requires op == ">=" || op == "<="
    requires LiteralAt(s, g, op) && UpdateValueAt(s, g + 2).Some?
    ensures UpdateOperatorValue(s, g, UpdateOperators(Syntax.Corrected), 0) == Some((op, UpdateValueAt(s, g + 2).value))
  {
    assert s[g] == op[0];
    if op == ">=" {
      CorrectedGreaterEqual(s, g);
    } else {
      CorrectedLessEqual(s, g);
    }
  }

  lemma CorrectedGreaterEqual(s: string, g: nat)
    requires g < |s| && s[g] == '>' && LiteralAt(s, g, ">=") && UpdateValueAt(s, g + 2).Some?
    ensures UpdateOperatorValue(s, g, UpdateOperators(Syntax.Corrected), 0) == Some((">=", UpdateValueAt(s, g + 2).value))
  {
    var ops := UpdateOperators(Syntax.Corrected);
    OperatorPassedOver(s, g, ops, 0);
    OperatorPassedOver(s, g, ops, 1);
    OperatorTaken(s, g, ops, 2, ">=");
  }

  lemma CorrectedLessEqual(s: string, g: nat)
    requires g < |s| && s[g] == '<' && LiteralAt(s, g, "<=") && UpdateValueAt(s, g + 2).Some?
    ensures UpdateOperatorValue(s, g, UpdateOperators(Syntax.Corrected), 0) == Some(("<=", UpdateValueAt(s, g + 2).value))
  {
    var ops := UpdateOperators(Syntax.Corrected);
    OperatorPassedOver(s, g, ops, 0);
    OperatorPassedOver(s, g, ops, 1);
    OperatorPassedOver(s, g, ops, 2);
    OperatorTaken(s, g, ops, 3, "<=");
  }

  /** As written, a SET value holding `=` loses everything up to its last `=`
      (`split('=').pop()`); the text it keeps never holds `=`. */
  lemma AsWrittenSetValueLosesEquals(name: string, v: string)
    requires '=' in v
    ensures '=' !in SetValueText(name + "=" + v, Syntax.AsWritten)
    ensures SetValueText(name + "=" + v, Syntax.AsWritten) != v
  {
    SplitPieces(name + "=" + v, '=');
  }

  /** Corrected, a SET value is everything after the `=` that ends the name. */
  lemma CorrectedSetValueText(name: string, v: string)
    requires '=' !in name
    ensures SetValueText(name + "=" + v, Syntax.Corrected) == v
  {
    var pair := name + "=" + v;
    assert LiteralAt(pair, |name|, "=");
    forall k | 0 <= k < |name| ensures !LiteralAt(pair, k, "=") {
      assert pair[k] == name[k];
    }
    assert pair[|name| + 1..] == v;
  }
}
