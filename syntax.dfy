/** The syntax validator (`verifySyntax` and `execError` in
    src/handlers/syntaxHandler.js). INIT, DROP and DESCRIBE are judged on the
    pieces of `split(' ')`; the other actions on recognisers for their patterns. */
module Syntax {
  import opened JsString

  const SyntaxErrorPrefix := "You have an error on your command syntax: "

  /** Which program is modelled: the source as written, or the source as it
      evidently means at the four places where the two differ (the names in
      the DELETE pattern, the UPDATE operator order, the UPDATE SET values and
      the TCP chunk test). */
  datatype Reading = AsWritten | Corrected

  /** The validator's verdict: the command itself, or the thrown message. */
  datatype Checked = Accepted(command: string) | Rejected(message: string)

  predicate HasSyntaxPrefix(m: string) {
    |m| >= |SyntaxErrorPrefix| && m[..|SyntaxErrorPrefix|] == SyntaxErrorPrefix
  }

  /** `execError`: every rejection carries the same prefix. */
  function ExecError(detail: string): (r: Checked)
    ensures r.Rejected? && HasSyntaxPrefix(r.message)
  {
    assert (SyntaxErrorPrefix + detail)[..|SyntaxErrorPrefix|] == SyntaxErrorPrefix;
    Rejected(SyntaxErrorPrefix + detail)
  }

  predicate IsAction(a: string) {
    a in {"INIT", "SAVE", "DROP", "CREATE", "INSERT", "DESCRIBE", "FIND", "DELETE", "UPDATE"}
  }

  /** The upper-cased first `split(' ')` piece names the action. */
  function ActionOf(command: string): string {
    Upper(Split(command, ' ')[0])
  }

  /** `verifySyntax`: the verdict on one command. What each action accepts is
      stated by the lemmas below. */
  function VerifySyntax(command: string, reading: Reading): (r: Checked)
    // the accepted command comes back unchanged
    ensures r.Accepted? ==> r.command == command
    // every rejection goes through execError
    ensures r.Rejected? ==> HasSyntaxPrefix(r.message)
    // an unknown action is rejected, naming the piece as written
    ensures !IsAction(ActionOf(command)) ==>
              r == ExecError("Invalid command action: \"" + Split(command, ' ')[0] + "\"")
  {
    var parts := Split(command, ' ');
    var action := ActionOf(command);
    if action == "INIT" then CheckInit(command, parts)
    else if action == "SAVE" then CheckSave(command)
    else if action == "DROP" || action == "DESCRIBE" then CheckElement(command, parts, action)
    else if action == "CREATE" then CheckShape(command, CreateShape(command), "Invalid format for create command")
    else if action == "INSERT" then CheckShape(command, InsertShape(command), "Invalid format for insert command")
    else if action == "FIND" then CheckShape(command, FindShape(command), "Invalid format for finding command")
    else if action == "DELETE" then CheckShape(command, DeletePattern(command, reading), "Invalid format for delete command")
    else if action == "UPDATE" then CheckShape(command, UpdateShape(command), "Invalid format for update command")
    else ExecError("Invalid command action: \"" + parts[0] + "\"")
  }

  /** INIT is rejected when the name reads as an integer or there is more than one argument. */
  lemma VerifyInit(command: string, reading: Reading)
    requires ActionOf(command) == "INIT"
    ensures var parts := Split(command, ' ');
            VerifySyntax(command, reading).Accepted? <==> |parts| <= 2 && !(|parts| == 2 && ParsesAsInteger(parts[1]))
  {
  }

  /** SAVE is accepted exactly when the trimmed text is SAVE in any casing. */
  lemma VerifySave(command: string, reading: Reading)
    requires ActionOf(command) == "SAVE"
    ensures VerifySyntax(command, reading).Accepted? <==> Upper(Trim(command)) == "SAVE"
  {
  }

  /** DROP and DESCRIBE take two or three pieces, the second DATABASE or TABLE in
      any casing, with a message of their own for too few and too many pieces. */
  lemma VerifyElement(command: string, reading: Reading)
    requires ActionOf(command) in {"DROP", "DESCRIBE"}
    ensures var parts := Split(command, ' ');
            VerifySyntax(command, reading).Accepted? <==> 2 <= |parts| <= 3 && Upper(parts[1]) in {"DATABASE", "TABLE"}
    ensures |Split(command, ' ')| < 2 ==>
              VerifySyntax(command, reading) == ExecError("Not enough arguments for the " + ActionOf(command) + " command.")
    ensures |Split(command, ' ')| > 3 ==>
              VerifySyntax(command, reading) == ExecError("2 arguments expected (database or table name) but got: " + NatToString(|Split(command, ' ')| - 1))
  {
  }

  /** CREATE, INSERT, FIND, DELETE and UPDATE are accepted exactly when their
      pattern matches; as written, DELETE is judged by the source's pattern. */
  lemma VerifyPattern(command: string, reading: Reading)
    ensures ActionOf(command) == "CREATE" ==> (VerifySyntax(command, reading).Accepted? <==> CreateShape(command))
    ensures ActionOf(command) == "INSERT" ==> (VerifySyntax(command, reading).Accepted? <==> InsertShape(command))
    ensures ActionOf(command) == "FIND" ==> (VerifySyntax(command, reading).Accepted? <==> FindShape(command))
    ensures ActionOf(command) == "DELETE" && reading == AsWritten ==> (VerifySyntax(command, reading).Accepted? <==> DeleteShape(command))
    ensures ActionOf(command) == "DELETE" && reading == Corrected ==> (VerifySyntax(command, reading).Accepted? <==> DeleteShapeBounded(command))
    ensures ActionOf(command) == "UPDATE" ==> (VerifySyntax(command, reading).Accepted? <==> UpdateShape(command))
  {
  }

  function CheckShape(command: string, ok: bool, detail: string): (r: Checked)
    ensures r.Accepted? <==> ok
    ensures r.Accepted? ==> r.command == command
    ensures r.Rejected? ==> r == ExecError(detail)
  {
    if ok then Accepted(command) else ExecError(detail)
  }

  /** INIT: the name must not read as an integer; then at most one argument. */
  function CheckInit(command: string, parts: seq<string>): (r: Checked)
    requires |parts| >= 1
    ensures r.Accepted? <==> |parts| <= 2 && !(|parts| == 2 && ParsesAsInteger(parts[1]))
    ensures r.Accepted? ==> r.command == command
    ensures r.Rejected? ==> HasSyntaxPrefix(r.message)
  {
    if |parts| > 1 && ParsesAsInteger(parts[1]) then ExecError("Invalid database name -> " + parts[1])
    else if |parts| > 2 then ExecError("1 argument expected (database name) but got: " + NatToString(|parts| - 1))
    else Accepted(command)
  }

  /** SAVE: the whole text is SAVE with optional white space around it. */
  function CheckSave(command: string): (r: Checked)
    ensures r.Accepted? <==> Upper(Trim(command)) == "SAVE"
    ensures r.Accepted? ==> r.command == command
    ensures r.Rejected? ==> r == ExecError("Invalid format for finding command")
  {
    SaveShapeIsTrimmedSave(command);
    CheckShape(command, SaveShape(command), "Invalid format for finding command")
  }

  /** DROP and DESCRIBE: one or two arguments, the first naming DATABASE or TABLE. */
  function CheckElement(command: string, parts: seq<string>, verb: string): (r: Checked)
    requires |parts| >= 1
    ensures r.Accepted? <==> 2 <= |parts| <= 3 && Upper(parts[1]) in {"DATABASE", "TABLE"}
    ensures r.Accepted? ==> r.command == command
    ensures |parts| < 2 ==> r == ExecError("Not enough arguments for the " + verb + " command.")
    ensures |parts| > 3 ==> r == ExecError("2 arguments expected (database or table name) but got: " + NatToString(|parts| - 1))
    ensures r.Rejected? ==> HasSyntaxPrefix(r.message)
  {
    if |parts| < 2 then ExecError("Not enough arguments for the " + verb + " command.")
    else if |parts| > 3 then ExecError("2 arguments expected (database or table name) but got: " + NatToString(|parts| - 1))
    else if Upper(parts[1]) in {"DATABASE", "TABLE"} then Accepted(command)
    else ExecError("Element: " + parts[1] + " does not support the " + verb + " command.")
  }

  // ---------------------------------------------------------------- SAVE

  /** `/^\s*SAVE\s*$/ui`. */
  predicate SaveShape(s: string) {
    var i := SkipWs(s, 0);
    KeywordAt(s, i, "SAVE") && SkipWs(s, i + 4) == |s|
  }

  lemma {:induction false} TrimEndOfPaddedWord(s: string, n: nat)
    requires 0 < n <= |s| && !IsWs(s[n - 1])
    requires forall k :: n <= k < |s| ==> IsWs(s[k])
    ensures TrimEnd(s) == s[..n]
    decreases |s|
  {
    if |s| > n {
      assert s[..|s| - 1][..n] == s[..n];
      TrimEndOfPaddedWord(s[..|s| - 1], n);
    }
  }

  lemma {:induction false} SkipWsWhenAllWs(s: string, i: nat)
    requires i <= |s|
    requires forall k :: i <= k < |s| ==> IsWs(s[k])
    ensures SkipWs(s, i) == |s|
    decreases |s| - i
  {
    if i < |s| {
      SkipWsWhenAllWs(s, i + 1);
    }
  }

  /** The SAVE pattern holds exactly when the trimmed command is SAVE in any casing. */
  lemma SaveShapeIsTrimmedSave(s: string)
    ensures SaveShape(s) <==> Upper(Trim(s)) == "SAVE"
  {
    if SaveShape(s) {
      SaveShapeTrims(s);
    }
    if Upper(Trim(s)) == "SAVE" {
      TrimmedSaveIsSaveShape(s);
    }
  }

  lemma SaveShapeTrims(s: string)
    requires SaveShape(s)
    ensures Upper(Trim(s)) == "SAVE"
  {
    var i := SkipWs(s, 0);
    var rest := s[i..];
    KeywordAtIsUpperSlice(s, i, "SAVE");
    assert !IsWs(rest[3]) by {
      KeywordAtChar(s, i, "SAVE", 3);
      assert rest[3] == s[i + 3];
    }
    forall k | 4 <= k < |rest| ensures IsWs(rest[k]) {
      assert rest[k] == s[i + k];
    }
    TrimEndOfPaddedWord(rest, 4);
    assert rest[..4] == s[i..i + 4];
  }

  lemma TrimmedSaveIsSaveShape(s: string)
    requires Upper(Trim(s)) == "SAVE"
    ensures SaveShape(s)
  {
    var i := SkipWs(s, 0);
    var rest := s[i..];
    KeywordAtIsUpperSlice(s, i, "SAVE");
    var t := TrimEnd(rest);
    assert |t| == 4;
    assert t == rest[..4] == s[i..i + 4];
    forall k | i + 4 <= k < |s| ensures IsWs(s[k]) {
      assert s[k] == rest[k - i];
    }
    SkipWsWhenAllWs(s, i + 4);
  }

  // ---------------------------------------------------------------- CREATE

  /** `/^\s*CREATE\s+(DATABASE|TABLE)\s+(\w+)\s*(?:\((ENTRY(?:,\s*ENTRY)*\s*)\))?$/ui`
      where ENTRY is `\w+\s*(?:as\s+PRIMARY_KEY\s*)?`. */
  predicate CreateShape(s: string) {
    var i := SkipWs(s, 0);
    KeywordAt(s, i, "CREATE") &&
    var j := SkipWs(s, i + 6);
    j > i + 6 &&
    var k := if KeywordAt(s, j, "DATABASE") then j + 8 else if KeywordAt(s, j, "TABLE") then j + 5 else j;
    k > j &&
    var m := SkipWs(s, k);
    m > k &&
    var n := WordEnd(s, m);
    n > m &&
    var p := SkipWs(s, n);
    p == |s| || (s[p] == '(' && EntriesEnd(s, p + 1) == Some(|s| - 1))
  }

  /** Where `as\s+PRIMARY_KEY\s*` starting at `i` ends. */
  function PrimaryKeyMarkEnd(s: string, i: nat): (r: Option<nat>)
    requires i <= |s|
    ensures r.Some? ==> i < r.value <= |s|
  {
    if KeywordAt(s, i, "AS") then
      var j := SkipWs(s, i + 2);
      if j > i + 2 && KeywordAt(s, j, "PRIMARY_KEY") then Some(SkipWs(s, j + 11)) else None
    else None
  }

  /** Where one column entry starting at `i` ends. The word may end in `as`
      that belongs to the mark (`idas PRIMARY_KEY`), as the pattern backtracks. */
  function EntryEnd(s: string, i: nat): (r: Option<nat>)
    requires i <= |s|
    ensures r.Some? ==> i < r.value <= |s|
  {
    var w := WordEnd(s, i);
    if w == i then None
    else
      var g := SkipWs(s, w);
      if g > w && PrimaryKeyMarkEnd(s, g).Some? then PrimaryKeyMarkEnd(s, g)
      else if w - i >= 3 && g > w && KeywordAt(s, w - 2, "AS") && KeywordAt(s, g, "PRIMARY_KEY") then Some(SkipWs(s, g + 11))
      else Some(g)
  }

  /** The position of the `)` closing a comma-separated run of entries starting at `i`. */
  function EntriesEnd(s: string, i: nat): (r: Option<nat>)
    requires i <= |s|
    ensures r.Some? ==> r.value < |s| && s[r.value] == ')'
    decreases |s| - i
  {
    match EntryEnd(s, i)
    case None => None
    case Some(e) =>
      if e < |s| && s[e] == ')' then Some(e)
      else if e < |s| && s[e] == ',' then EntriesEnd(s, SkipWs(s, e + 1))
      else None
  }

  // ---------------------------------------------------------------- INSERT

  /** `INSERT\s+INTO\s+\w` starts at `p`. */
  predicate InsertHeadAt(s: string, p: nat) {
    KeywordAt(s, p, "INSERT") &&
    var i := SkipWs(s, p + 6);
    i > p + 6 && KeywordAt(s, i, "INTO") &&
    var j := SkipWs(s, i + 4);
    j > i + 4 && j < |s| && IsWordChar(s[j])
  }

  /** The first position at or after `p` holding an INSERT head. */
  function FindInsertHead(s: string, p: nat): (r: Option<nat>)
    requires p <= |s|
    ensures r.Some? ==> p <= r.value <= |s| && InsertHeadAt(s, r.value)
    ensures r.Some? ==> forall q :: p <= q < r.value ==> !InsertHeadAt(s, q)
    ensures r.None? ==> forall q :: p <= q <= |s| ==> !InsertHeadAt(s, q)
    decreases |s| - p
  {
    if InsertHeadAt(s, p) then Some(p)
    else if p == |s| then None
    else FindInsertHead(s, p + 1)
  }

  /** The unanchored pattern `INSERT\s+INTO\s+\w+\s*(?:\(([^()]+)\))?\s*(?:VALUES\s*\(([^()]+)\))?\s*`,
      whose optional parts always match the empty text: it holds exactly when
      an INSERT head occurs somewhere. */
  predicate InsertShape(s: string) {
    FindInsertHead(s, 0).Some?
  }

  // ---------------------------------------------------------------- FIND

  /** Operators of a WHERE clause the command parser understands. */
  const ComparisonOperators: seq<string> := ["=", "!=", ">", "<", ">=", "<="]

  /** No operator written at `i` is longer than the one chosen, and none is
      chosen only when none is written. */
  lemma LongestComparisonIsLongest(s: string, i: nat)
    ensures var r := LongestComparison(s, i);
            (r.Some? ==> forall o :: o in ComparisonOperators && LiteralAt(s, i, o) ==> |o| <= |r.value|) &&
            (r.None? ==> forall o :: o in ComparisonOperators ==> !LiteralAt(s, i, o))
  {
  }

  /** The longest comparison operator at `i`. */
  function LongestComparison(s: string, i: nat): (r: Option<string>)
    ensures r.Some? ==> r.value in ComparisonOperators && LiteralAt(s, i, r.value)
  {
    if LiteralAt(s, i, ">=") then Some(">=")
    else if LiteralAt(s, i, "<=") then Some("<=")
    else if LiteralAt(s, i, "!=") then Some("!=")
    else if LiteralAt(s, i, "=") then Some("=")
    else if LiteralAt(s, i, ">") then Some(">")
    else if LiteralAt(s, i, "<") then Some("<")
    else None
  }

  /** One or more white-space characters at `i`. */
  function Ws1(s: string, i: nat): (r: Option<nat>)
    requires i <= |s|
    ensures r.Some? ==> i < r.value <= |s|
  {
    var j := SkipWs(s, i);
    if j > i then Some(j) else None
  }

  /** A word, maximal, at `i`. */
  function WordAt(s: string, i: nat): (r: Option<nat>)
    requires i <= |s|
    ensures r.Some? ==> i < r.value <= |s| && (r.value < |s| ==> !IsWordChar(s[r.value]))
  {
    var j := WordEnd(s, i);
    if j > i then Some(j) else None
  }

  /** The first `\s+IN\s+` (case-insensitive) at or after `i`: the start of its
      white space and the position after it. */
  function FindInKeyword(s: string, i: nat): (r: Option<(nat, nat)>)
    requires i <= |s|
    ensures r.Some? ==> i <= r.value.0 < r.value.1 <= |s|
    decreases |s| - i
  {
    if i < |s| && IsWs(s[i]) then
      var j := SkipWs(s, i);
      if KeywordAt(s, j, "IN") && Ws1(s, j + 2).Some? then Some((i, Ws1(s, j + 2).value))
      else FindInKeyword(s, j)
    else if i < |s| then FindInKeyword(s, i + 1)
    else None
  }

  predicate IsColumnSpecChar(c: char) { IsWordChar(c) || c == '.' || c == ',' || IsWs(c) }

  /** A simplified value of the FIND pattern: `['"]?%?\w+%?['"]?` or `\d*\.?\d*`;
      the end of the longest such value at `i`. */
  function FindValueEnd(s: string, i: nat): (r: nat)
    requires i <= |s|
    ensures i <= r <= |s|
  {
    var a := if i < |s| && (s[i] == '\'' || s[i] == '"') then i + 1 else i;
    var b := if a < |s| && s[a] == '%' then a + 1 else a;
    var c := WordEnd(s, b);
    if c > b then
      var d := if c < |s| && s[c] == '%' then c + 1 else c;
      if d < |s| && (s[d] == '\'' || s[d] == '"') then d + 1 else d
    else
      var e := RunEnd(s, i, IsDigit);
      var f := if e < |s| && s[e] == '.' then RunEnd(s, e + 1, IsDigit) else e;
      f
  }

  /** What may follow the table name: an optional WHERE clause, optional LIMIT
      and OFFSET, and nothing else. */
  predicate FindTail(s: string, i: nat)
    requires i <= |s|
  {
    var a := SkipWs(s, i);
    var b :=
      if KeywordAt(s, a, "WHERE") then
        match Ws1(s, a + 5)
        case None => None
        case Some(f) =>
          match WordAt(s, f)
          case None => None
          case Some(g) =>
            var g' := if g < |s| && s[g] == '.' && WordAt(s, g + 1).Some? then WordAt(s, g + 1).value else g;
            var h := SkipWs(s, g');
            match LongestComparison(s, h)
            case None => None
            case Some(op) => Some(SkipWs(s, FindValueEnd(s, SkipWs(s, h + |op|))))
      else Some(a);
    b.Some? &&
    var c := LimitOrOffsetEnd(s, b.value, "LIMIT");
    c.Some? &&
    var d := LimitOrOffsetEnd(s, c.value, "OFFSET");
    d.Some? && d.value == |s|
  }

  /** An optional `KEYWORD\s+\d+\s*` at `i` (after skipping white space). */
  function LimitOrOffsetEnd(s: string, i: nat, kw: string): (r: Option<nat>)
    requires i <= |s|
    ensures r.Some? ==> i <= r.value <= |s|
  {
    var a := SkipWs(s, i);
    if KeywordAt(s, a, kw) then
      match Ws1(s, a + |kw|)
      case None => None
      case Some(b) =>
        var c := RunEnd(s, b, IsDigit);
        if c > b then Some(SkipWs(s, c)) else None
    else Some(a)
  }

  /** A simplified FIND pattern:
      `FIND\s+(DISTINCT\s+)?(\*|[\w.\s,]+)\s+IN\s+\w+ [WHERE field op value] [LIMIT n] [OFFSET n]`. */
  predicate FindShape(s: string) {
    var i := SkipWs(s, 0);
    KeywordAt(s, i, "FIND") &&
    var j := SkipWs(s, i + 4);
    j > i + 4 &&
    var k := if KeywordAt(s, j, "DISTINCT") && Ws1(s, j + 8).Some? then Ws1(s, j + 8).value else j;
    match FindInKeyword(s, k)
    case None => false
    case Some((c, t)) =>
      var cols := s[k..c];
      (cols == "*" || (cols != [] && forall x :: 0 <= x < |cols| ==> IsColumnSpecChar(cols[x]))) &&
      match WordAt(s, t)
      case None => false
      case Some(u) => FindTail(s, u)
  }

  // ---------------------------------------------------------------- DELETE

  /** Operators the DELETE and UPDATE patterns accept. */
  const PatternOperators: seq<string> := ["=", "!=", ">=", "<=", ">", "<", "LIKE", "NOT LIKE", "IN", "NOT IN"]

  predicate IsCoreChar(c: char) { IsWordChar(c) || IsWs(c) || c == ',' }

  predicate IsQuote(c: char) { c == '\'' || c == '"' }

  /** `%?['"]?` covers the whole of `x`. */
  predicate PercentQuote(x: string) {
    x == [] || x == "%" || (|x| == 1 && IsQuote(x[0])) || (|x| == 2 && x[0] == '%' && IsQuote(x[1]))
  }

  /** `[\w\s,]+%?['"]?` covers the whole of `x`. */
  predicate CoreThenClose(x: string) {
    var e := RunEnd(x, 0, IsCoreChar);
    e >= 1 && PercentQuote(x[e..])
  }

  /** `\d*\.?\d*` covers the whole of `x`. */
  predicate DecimalDigits(x: string) {
    var e := RunEnd(x, 0, IsDigit);
    e == |x| || (x[e] == '.' && RunEnd(x, e + 1, IsDigit) == |x|)
  }

  /** A parenthesised list of quoted or bare items: simplified to `(` and `)`
      around characters of `[\w\s,'".]`, at least one of them a word character. */
  predicate ParenList(x: string) {
    |x| >= 2 && x[0] == '(' && x[|x| - 1] == ')' && ParenItems(x[1..|x| - 1], 0, false)
  }

  /** `y[k..]` holds only list characters, and a word character occurs in it or `seen` holds. */
  predicate ParenItems(y: string, k: nat, seen: bool)
    requires k <= |y|
    decreases |y| - k
  {
    if k == |y| then seen
    else (IsCoreChar(y[k]) || IsQuote(y[k]) || y[k] == '.') && ParenItems(y, k + 1, seen || IsWordChar(y[k]))
  }

  /** `\s*VALUE$` where VALUE is the DELETE/UPDATE value pattern: the value may
      start anywhere in the leading white space. */
  predicate ValueTail(t: string)
    decreases |t|
  {
    ValueAt(t) || (t != [] && IsWs(t[0]) && ValueTail(t[1..]))
  }

  /** VALUE covers the whole of `u`. */
  predicate ValueAt(u: string) {
    ParenList(u) ||
    (u != [] && IsQuote(u[0]) && (CoreThenClose(u[1..]) || (|u| >= 2 && u[1] == '%' && CoreThenClose(u[2..])))) ||
    (u != [] && u[0] == '%' && CoreThenClose(u[1..])) ||
    CoreThenClose(u) ||
    DecimalDigits(u)
  }

  /** An operator of the list at `i`, then the value to the end. */
  predicate OperatorThenValue(s: string, i: nat)
    requires i <= |s|
  {
    OperatorFromThenValue(s, i, 0)
  }

  /** Some operator of the list from index `n` on. */
  predicate OperatorFromThenValue(s: string, i: nat, n: nat)
    requires i <= |s|
    decreases |PatternOperators| - n
  {
    n < |PatternOperators| &&
    ((KeywordAt(s, i, PatternOperators[n]) && ValueTail(s[i + |PatternOperators[n]|..])) || OperatorFromThenValue(s, i, n + 1))
  }

  /** A name `s[a..b']` for some `b'` from `b` to the end of the word run, then
      white space, then what `next` accepts (the pattern may end a name early,
      before a keyword such as `WHERE`, `IN` or `LIKE`). */
  predicate NameThen(s: string, a: nat, b: nat, next: nat -> bool)
    requires a <= |s| && a < b <= WordEnd(s, a)
    decreases WordEnd(s, a) - b
  {
    next(SkipWs(s, b)) || (b < WordEnd(s, a) && NameThen(s, a, b + 1, next))
  }

  /** An operator and a value to the end start at the position given. */
  function OperatorAfter(s: string): nat -> bool {
    (i: nat) => i <= |s| && OperatorThenValue(s, i)
  }

  /** `WHERE\s*(\w+)\s*` at `i`, then what `next` accepts. */
  predicate WhereThen(s: string, i: nat, next: nat -> bool) {
    KeywordAt(s, i, "WHERE") &&
    var j := SkipWs(s, i + 5);
    j < |s| && IsWordChar(s[j]) && NameThen(s, j, j + 1, next)
  }

  /** `WHERE\s*(\w+)\s*OP\s*VALUE$` at `i`. */
  predicate WhereClause(s: string, i: nat) {
    WhereThen(s, i, OperatorAfter(s))
  }

  /** A WHERE clause, followed by what `next` accepts, starts at the position given. */
  function WhereAfter(s: string, next: nat -> bool): nat -> bool {
    (i: nat) => WhereThen(s, i, next)
  }

  /** `^DELETE\s*FROM\s*` followed by a word character: where the table name starts. */
  function DeleteHead(s: string): (r: Option<nat>)
    ensures r.Some? ==> r.value < |s| && IsWordChar(s[r.value])
  {
    if !KeywordAt(s, 0, "DELETE") then None
    else
      var i := SkipWs(s, 6);
      if !KeywordAt(s, i, "FROM") then None
      else
        var j := SkipWs(s, i + 4);
        if j < |s| && IsWordChar(s[j]) then Some(j) else None
  }

  /** The DELETE pattern as the source writes it:
      `/^DELETE\s*FROM\s*(\w+)\s*WHERE\s*(\w+)\s*(OP)\s*(VALUE)$/ui`. */
  predicate DeleteShape(s: string) {
    match DeleteHead(s)
    case None => false
    case Some(j) => NameThen(s, j, j + 1, WhereAfter(s, OperatorAfter(s)))
  }

  /** `WHERE\s*(\w+)\b\s*` at `w`, then what `next` accepts: the field name is its whole word run. */
  predicate WhereBoundedThen(s: string, w: nat, next: nat -> bool) {
    KeywordAt(s, w, "WHERE") &&
    var f := SkipWs(s, w + 5);
    f < |s| && IsWordChar(s[f]) && next(SkipWs(s, WordEnd(s, f)))
  }

  /** The DELETE pattern with word boundaries after the table and field names
      (`(\w+)\b`): each name is its whole word run. */
  predicate DeleteShapeBounded(s: string) {
    match DeleteHead(s)
    case None => false
    case Some(j) => WhereBoundedThen(s, SkipWs(s, WordEnd(s, j)), OperatorAfter(s))
  }

  /** The DELETE pattern of a reading: the source's, or the one with word boundaries. */
  predicate DeletePattern(s: string, reading: Reading) {
    match reading
    case AsWritten => DeleteShape(s)
    case Corrected => DeleteShapeBounded(s)
  }

  // ---------------------------------------------------------------- UPDATE

  /** Where one `\w+\s*=\s*(?:"[^"]*"|'[^']*'|[^'",]*)` pair starting at `i` ends.
      A quote with no partner leaves the value empty, as `[^'",]*` then matches nothing. */
  function SetPairEnd(s: string, i: nat): (r: Option<nat>)
    requires i <= |s|
    ensures r.Some? ==> i < r.value <= |s|
  {
    var w := WordEnd(s, i);
    var e := SkipWs(s, w);
    if w == i || e == |s| || s[e] != '=' then None
    else
      var v := SkipWs(s, e + 1);
      if v < |s| && IsQuote(s[v]) then
        var close := RunEnd(s, v + 1, c => c != s[v]);
        if close < |s| then Some(close + 1) else Some(v)
      else Some(RunEnd(s, v, c => !IsQuote(c) && c != ','))
  }

  /** `PAIR(?:\s*,\s*PAIR)*\s*` covers `s[i..]`. */
  predicate SetClauseFrom(s: string, i: nat)
    requires i <= |s|
    decreases |s| - i
  {
    match SetPairEnd(s, i)
    case None => false
    case Some(e) =>
      var k := SkipWs(s, e);
      k == |s| || (s[k] == ',' && SetClauseFrom(s, SkipWs(s, k + 1)))
  }

  predicate SetClause(t: string) {
    SetClauseFrom(t, 0)
  }

  /** `^UPDATE\s+(\w+)\s+SET\s+`: the table name's span and where the SET clause
      starts; what the span holds is stated by `UpdateHeadShape`. */
  function UpdateHead(s: string): (r: Option<(nat, nat, nat)>)
    ensures r.Some? ==> r.value.0 < r.value.1 <= r.value.2 <= |s|
  {
    if !KeywordAt(s, 0, "UPDATE") then None
    else
      match Ws1(s, 6)
      case None => None
      case Some(a) =>
        match WordAt(s, a)
        case None => None
        case Some(b) =>
          match Ws1(s, b)
          case None => None
          case Some(c) =>
            if !KeywordAt(s, c, "SET") then None
            else
              match Ws1(s, c + 3)
              case None => None
              case Some(d) => Some((a, b, d))
  }

  /** A head is UPDATE, white space, a word that ends at a non-word character,
      white space, SET and white space, with the clause starting at a
      character that is not white space. */
  lemma UpdateHeadShape(s: string)
    requires UpdateHead(s).Some?
    ensures var (a, b, d) := UpdateHead(s).value;
              KeywordAt(s, 0, "UPDATE") && 6 < a && (forall k :: 6 <= k < a ==> IsWs(s[k])) && !IsWs(s[a]) &&
              (forall k :: a <= k < b ==> IsWordChar(s[k])) && (b < |s| ==> !IsWordChar(s[b])) &&
              (exists c: nat :: b < c && c + 3 < d && (forall k :: b <= k < c ==> IsWs(s[k])) && KeywordAt(s, c, "SET") &&
                 (forall k :: c + 3 <= k < d ==> IsWs(s[k]))) &&
              (d < |s| ==> !IsWs(s[d]))
  {
  }

  /** After the validator's WHERE: `\s*(\w+)\s*OP` (the value may be empty).
      The field may give characters back to a word operator, as `login` is
      read as the field `log` and the operator `IN`. */
  predicate UpdateWhereTail(s: string, i: nat)
    requires i <= |s|
  {
    var j := SkipWs(s, i);
    j < |s| && IsWordChar(s[j]) && NameThen(s, j, j + 1, OperatorStarts(s))
  }

  /** Some operator of the list stands at the position given. */
  function OperatorStarts(s: string): nat -> bool {
    (o: nat) => OperatorFrom(s, o, 0)
  }

  /** Some operator of the list from index `n` on stands at `i`. */
  predicate OperatorFrom(s: string, i: nat, n: nat)
    decreases |PatternOperators| - n
  {
    n < |PatternOperators| && (KeywordAt(s, i, PatternOperators[n]) || OperatorFrom(s, i, n + 1))
  }

  /** Some WHERE at or after `w` closes a valid SET clause begun at `a`. */
  predicate SomeWhereSplit(s: string, a: nat, w: nat)
    requires a <= w <= |s|
    decreases |s| - w
  {
    (KeywordAt(s, w, "WHERE") && SetClause(s[a..w]) && UpdateWhereTail(s, w + 5))
    || (w < |s| && SomeWhereSplit(s, a, w + 1))
  }

  /** A simplified UPDATE pattern: the head, a SET clause, then
      `WHERE\s*(\w+)\s*OP` somewhere after it. */
  predicate UpdateShape(s: string) {
    match UpdateHead(s)
    case None => false
    case Some((_, _, a)) => SomeWhereSplit(s, a, a)
  }

  /** An operator found further down the list is found from any earlier index. */
  lemma {:induction false} OperatorFromReaches(s: string, i: nat, n: nat, m: nat)
    requires n <= m < |PatternOperators| && KeywordAt(s, i, PatternOperators[m])
    ensures OperatorFrom(s, i, n)
    decreases m - n
  {
    if n < m {
      OperatorFromReaches(s, i, n + 1, m);
    }
  }

  /** A name that may end at `x` may end somewhere from any earlier `b` on. */
  lemma {:induction false} NameThenReaches(s: string, a: nat, b: nat, x: nat, next: nat -> bool)
    requires a <= |s| && a < b <= x <= WordEnd(s, a) && next(SkipWs(s, x))
    ensures NameThen(s, a, b, next)
    decreases x - b
  {
    if b < x {
      NameThenReaches(s, a, b + 1, x, next);
    }
  }

  /** A WHERE found from `x` on is found from any earlier `w`. */
  lemma {:induction false} SomeWhereSplitReaches(s: string, a: nat, w: nat, x: nat)
    requires a <= w <= x <= |s| && SomeWhereSplit(s, a, x)
    ensures SomeWhereSplit(s, a, w)
    decreases x - w
  {
    if w < x {
      SomeWhereSplitReaches(s, a, w + 1, x);
      SomeWhereSplitStep(s, a, w);
    }
  }

  lemma SomeWhereSplitStep(s: string, a: nat, w: nat)
    requires a <= w < |s| && SomeWhereSplit(s, a, w + 1)
    ensures SomeWhereSplit(s, a, w)
  {
  }

  lemma SomeWhereSplitHere(s: string, a: nat, w: nat)
    requires a <= w <= |s|
    requires KeywordAt(s, w, "WHERE") && SetClause(s[a..w]) && UpdateWhereTail(s, w + 5)
    ensures SomeWhereSplit(s, a, w)
  {
  }

  const GivesBackUpdate := "UPDATE t SET a = 1 WHERE login"

  /** The validator accepts an UPDATE whose WHERE has a field and no operator:
      the word `login` gives its last two letters back, to be read as the
      field `log` and the operator `IN`. */
  lemma UpdateFieldGivesBack()
    ensures UpdateShape(GivesBackUpdate)
  {
    var s := GivesBackUpdate;
    GivesBackHead();
    GivesBackSet();
    GivesBackWhere();
    GivesBackTail();
    UpdateShapeOfSplit(s, 19);
  }

  /** A head, then a SET clause closed by a WHERE whose tail is valid, is an UPDATE shape. */
  lemma UpdateShapeOfSplit(s: string, w: nat)
    requires UpdateHead(s).Some? && UpdateHead(s).value.2 <= w <= |s|
    requires KeywordAt(s, w, "WHERE") && SetClause(s[UpdateHead(s).value.2..w]) && UpdateWhereTail(s, w + 5)
    ensures UpdateShape(s)
  {
    var a := UpdateHead(s).value.2;
    SomeWhereSplitHere(s, a, w);
    SomeWhereSplitReaches(s, a, a, w);
  }

  lemma GivesBackHead()
    ensures UpdateHead(GivesBackUpdate) == Some((7, 8, 13))
  {
    GivesBackUpdateWord();
    GivesBackSetWord();
    GivesBackSpaces();
  }

  lemma GivesBackUpdateWord()
    ensures KeywordAt(GivesBackUpdate, 0, "UPDATE")
  {
    var s := GivesBackUpdate;
    assert s[0..6] == "UPDATE";
    KeywordAtOfLiteral(s, 0, "UPDATE");
  }

  lemma GivesBackSetWord()
    ensures KeywordAt(GivesBackUpdate, 9, "SET")
  {
    var s := GivesBackUpdate;
    assert s[9..12] == "SET" by {
      assert s[9] == 'S' && s[10] == 'E' && s[11] == 'T';
    }
    KeywordAtOfLiteral(s, 9, "SET");
  }

  lemma GivesBackSpaces()
    ensures SkipWs(GivesBackUpdate, 6) == 7 && WordEnd(GivesBackUpdate, 7) == 8
    ensures SkipWs(GivesBackUpdate, 8) == 9 && SkipWs(GivesBackUpdate, 12) == 13
  {
    GivesBackSpace(6);
    GivesBackSpace(8);
    GivesBackSpace(12);
    GivesBackTable();
  }

  lemma GivesBackSpace(i: nat)
    requires i == 6 || i == 8 || i == 12
    ensures SkipWs(GivesBackUpdate, i) == i + 1
  {
    SkipOneSpace(GivesBackUpdate, i);
  }

  lemma GivesBackTable()
    ensures WordEnd(GivesBackUpdate, 7) == 8
  {
    var s := GivesBackUpdate;
    assert IsWordChar(s[7]) && !IsWordChar(s[8]);
  }

  /** One white-space character followed by text that is not white space. */
  lemma SkipOneSpace(s: string, i: nat)
    requires i + 1 < |s| && IsWs(s[i]) && !IsWs(s[i + 1])
    ensures SkipWs(s, i) == i + 1
  {
  }

  lemma GivesBackSet()
    ensures SetClause(GivesBackUpdate[13..19])
  {
    var t := GivesBackUpdate[13..19];
    assert t == "a = 1 ";
    assert WordEnd(t, 0) == 1 && SkipWs(t, 1) == 2 && SkipWs(t, 3) == 4;
    assert RunEnd(t, 4, c => !IsQuote(c) && c != ',') == 6;
    assert SetPairEnd(t, 0) == Some(6);
  }

  lemma GivesBackWhere()
    ensures KeywordAt(GivesBackUpdate, 19, "WHERE")
  {
    var s := GivesBackUpdate;
    assert s[19..24] == "WHERE";
    KeywordAtOfLiteral(s, 19, "WHERE");
  }

  lemma GivesBackTail()
    ensures UpdateWhereTail(GivesBackUpdate, 24)
  {
    var s := GivesBackUpdate;
    assert SkipWs(s, 24) == 25 && WordEnd(s, 25) == 30 && SkipWs(s, 28) == 28;
    assert KeywordAt(s, 28, PatternOperators[8]);
    OperatorFromReaches(s, 28, 0, 8);
    NameThenReaches(s, 25, 26, 28, OperatorStarts(s));
  }
}
