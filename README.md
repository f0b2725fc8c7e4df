# nuedb-core gateway, modelled in Dafny

This project models the gateway of nuedb-core. The gateway is a TCP server. It reads one command per chunk of data from a socket, checks the command's syntax, and turns it into a request to the storage engine: INIT, CREATE, INSERT, FIND, DESCRIBE, DROP, DELETE or UPDATE. It then writes the engine's answer back on the socket.

The model has six modules:

- `JsString` holds the JavaScript string operations the source relies on. These are `split(' ')` (which keeps empty pieces), `trim` with the full JavaScript white-space set, ASCII `toUpperCase`, `indexOf`, `lastIndexOf`, `substring` (clamped, with out-of-order bounds swapped), `slice`, global `replace` of a literal, the integer test behind `isNaN(parseInt(..))`, and the literal prefix `parseFloat` reads.
- `Coercion` holds `clean`, which turns a value token into null, a string or a number.
- `Syntax` holds `verifySyntax` and `execError`. INIT, SAVE, DROP and DESCRIBE are judged exactly as the source does. CREATE, INSERT, FIND, DELETE and UPDATE are judged by recognisers for their regular expressions. DELETE is judged by the source's pattern as written; the stricter pattern of the DELETE finding is used only in the corrected reading.
- `Parser` holds how `executeCommand` reads an accepted command:
  - the INIT database name;
  - the CREATE column list and primary key (the `forEach`/`splice` loop is a method);
  - the INSERT groups and `cleanValues` (a loop method);
  - the FIND table, columns, DISTINCT, WHERE condition, LIMIT and OFFSET;
  - the DELETE and UPDATE regular expressions, including where they backtrack.
- `Dispatcher` holds the rest of `executeCommand`:
  - the `currentDB` slot (`Session`: the placeholder or an initialised database);
  - the guards;
  - the request handed to the engine (`Call`);
  - the pure outcome `Execute`;
  - a `Gateway` class whose fields are the slot and the log of requests. Its `ExecuteCommand` method is proved to follow `Execute`.
- `Framing` holds the socket side:
  - the protocol sniff;
  - the `AJX` marker stripping;
  - `JSON.stringify` of strings and errors;
  - `sendLargeResponse` as a loop over a `Socket` class that records its writes;
  - `handleTCP`, `handleHTTP` and the `data` handler.

Every operation that a finding below touches takes a `Reading`. `AsWritten` follows the source's code exactly, and `Corrected` follows what the code evidently intends. The rows below that cite the source describe the `AsWritten` behaviour unless they say otherwise. The corrected reading is used only by the lemmas about the intended behaviour.

The storage engine is a parameter. Each command comes with an `Answer`, which is what the engine gives back (`Gives(payload)`) or throws (`Raises(message)`). The model records which request would have been handed to the engine. A thrown exception is a `Threw(message)` result.

## Model

| member | source | states |
|---|---|---|
| JsString.Split | src/handlers/syntaxHandler.js:5 | `split` always yields at least one piece, so `commandParts[0]` always exists |
| JsString.JoinSplit | src/handlers/syntaxHandler.js:5 | joining the pieces of `split(d)` with `d` gives back the text |
| JsString.SplitPieces | src/handlers/syntaxHandler.js:5 | there is one piece more than there are separators, and no piece contains the separator |
| JsString.Upper | server.js:78 | `toUpperCase` keeps the length |
| JsString.KeywordAtIsUpperSlice | src/handlers/syntaxHandler.js:57 | a case-insensitive keyword match (the `/i` flag) is exactly: the upper-cased slice equals the keyword |
| JsString.KeywordAtConcat | src/handlers/syntaxHandler.js:57 | a keyword matches case-insensitively exactly when its two halves match one after the other |
| JsString.Trim | server.js:38 | the trimmed text is the slice starting at the first non-white-space character; neither of its ends is white space, and every character outside it is white space |
| JsString.TrimEnd | server.js:38 | trimming the end removes exactly a tail that is all white space |
| JsString.IndexOf | server.js:93 | `indexOf` is -1 exactly when there is no occurrence; otherwise it is the first occurrence |
| JsString.LastIndexOfChar | server.js:94 | `lastIndexOf` is the last position holding the character, or -1 when there is none |
| JsString.Slice | server.js:66 | `slice(a, b)` inside the text is the sub-sequence, and past the end it is the rest of the text |
| JsString.SplitJoin | server.js:140 | splitting at a separator that no piece contains gives back the pieces that were joined |
| JsString.RemoveAll | server.js:40 | removing every marker never makes a text longer |
| JsString.RemoveAllAbsent | server.js:40 | a text without the marker is left unchanged |
| JsString.ParseFloat | server.js:354 | the literal `parseFloat` reads is non-empty and starts after the leading white space |
| JsString.ParseFloatOfLiteral | server.js:354 | reading the literal that was read gives that literal again |
| JsString.NumberLiteralLengthIdempotent | server.js:354 | the longest decimal-literal prefix of that prefix is the prefix itself |
| Coercion.Clean | server.js:344-357 | any casing of NULL, and nothing else, gives null; a token in matching quotes gives the text between them; otherwise a token `parseFloat` reads gives that number, and anything else stays as it is |
| Coercion.CleanLiteralRoundTrip | server.js:344-357 | writing a coerced value back as a literal and coercing it again gives the same value |
| Coercion.CleanNullExample | server.js:345-347 | `null` and `NuLl` both give null |
| Coercion.CleanQuotedExample | server.js:351-352 | `'abc'` and `"abc"` both give the string abc |
| Coercion.CleanLoneQuoteExample | server.js:351-352 | a lone `'` stays itself, because `substring(1, 0)` swaps its bounds |
| Coercion.CleanNumberExample | server.js:354-355 | `42` gives the number 42, and so does `42abc`, because `parseFloat` reads a prefix |
| Coercion.CleanFallbackExample | server.js:355 | `abc` and the empty token stay strings |
| Syntax.ExecError | src/handlers/syntaxHandler.js:144-146 | every rejection carries the fixed syntax-error prefix |
| Syntax.VerifySyntax | src/handlers/syntaxHandler.js:3-142 | an accepted command comes back unchanged; every rejection has the prefix; an unknown action is rejected with a message naming the first piece as written (in either reading) |
| Syntax.VerifyInit | src/handlers/syntaxHandler.js:10-19 | INIT is accepted exactly when there are at most two pieces and the name does not read as an integer |
| Syntax.VerifySave | src/handlers/syntaxHandler.js:22-32 | SAVE is accepted exactly when the trimmed command is SAVE in any casing |
| Syntax.VerifyElement | src/handlers/syntaxHandler.js:34-99 | DROP and DESCRIBE are accepted exactly when there are two or three pieces and the second is DATABASE or TABLE; too few or too many pieces give their own messages |
| Syntax.VerifyPattern | src/handlers/syntaxHandler.js:55-136 | CREATE, INSERT, FIND and UPDATE are each accepted exactly when their recogniser matches; as written, DELETE is accepted exactly when the source's DELETE pattern matches, and in the corrected reading exactly when the bounded pattern matches |
| Syntax.CheckInit | src/handlers/syntaxHandler.js:10-19 | INIT is accepted, unchanged, exactly when the name does not read as an integer and there is at most one argument; a rejection has the prefix |
| Syntax.CheckSave | src/handlers/syntaxHandler.js:22-28 | SAVE is accepted, unchanged, exactly when the trimmed text is SAVE in any casing, and is otherwise rejected with the finding-format message the source reuses |
| Syntax.CheckElement | src/handlers/syntaxHandler.js:34-53 | DROP or DESCRIBE is accepted exactly when it has one or two arguments and the first is DATABASE or TABLE; too few and too many arguments each have their own message |
| Syntax.SaveShapeIsTrimmedSave | src/handlers/syntaxHandler.js:24 | `/^\s*SAVE\s*$/ui` holds exactly when the trimmed command is SAVE in any casing |
| Syntax.LongestComparisonIsLongest | server.js:182 | the comparison operator chosen at a position is the longest of `=`, `!=`, `>`, `<`, `>=`, `<=` written there, and none is chosen only when none is written |
| Syntax.UpdateHeadShape | server.js:288 | a match of `^UPDATE\s+(\w+)\s+SET\s+` has UPDATE at the start, white space, a run of word characters that ends at a non-word character, white space, SET and white space, with the clause starting at a non-white-space character |
| Syntax.UpdateFieldGivesBack | src/handlers/syntaxHandler.js:128 | the validator accepts `UPDATE t SET a = 1 WHERE login`, with `login` read as the field `log` followed by the operator `IN` |
| Syntax.FindInsertHead | src/handlers/syntaxHandler.js:69 | the unanchored INSERT pattern finds the first position where an `INSERT INTO name` head stands, and none before it |
| Parser.DatabaseName | server.js:83 | the name is the second piece up to its first `;`; with no second piece, reading `split` of undefined throws |
| Parser.PrimaryKeyIsLastKeyEntry | server.js:95-106 | the primary key is the name in the last entry marked PRIMARY_KEY |
| Parser.PrimaryKeyDefault | server.js:95-106 | with no marked entry the primary key is `id` and every entry stays a column |
| Parser.UnkeyedMembers | server.js:101-106 | an entry stays a column exactly when it occurs and is not marked |
| Parser.KeyEntrySpliced | server.js:104 | splicing out the first occurrence of a marked entry removes the entry the loop is visiting |
| Parser.ExtractPrimaryKey | server.js:95-106 | the CREATE loop ends with the key named by the last marked entry and the columns that are not marked, in their order |
| Parser.TokensOfJoin | server.js:122-123 | unquoted values without commas, joined by commas, are matched back one by one |
| Parser.QuotedTokenKeepsCommas | server.js:122-123 | a quoted value is matched whole, with the commas inside it |
| Parser.CleanValues | server.js:121-130 | `cleanValues` gives each match, trimmed and coerced, in match order |
| Parser.InsertRequestOf | server.js:114-143 | without an INSERT head, reading group 1 of null throws; a missing values list with a VALUES word throws the VALUES message; a request is made exactly when a first group is read and either a values list is read or VALUES is not written; with one group, its tokens are the values; with two, the first group split at commas gives the columns and the second group's tokens give the values, all cleaned |
| Parser.InsertOfJoinedLists | server.js:114-143 | `INSERT INTO t (c1,…) VALUES (v1,…)` with plain items reads the cleaned columns and the cleaned values in their order |
| Parser.ListInIsMatch | server.js:114 | the character-by-character test of a group's text agrees with the list pattern `\s*.+?\s*(?:,\s*.+?\s*)*`, written as its own definition: items of characters other than line terminators, with white space around them, separated by commas |
| Parser.ParenGroupAt | server.js:114 | a group found at `(` is the text up to a `)`, and that text is a list |
| Parser.ParenGroupIsFirst | server.js:114 | the group closes at the first `)` before which the text is a list; there is no group exactly when no `)` has a list before it |
| Parser.InsertOfListTexts | server.js:114-143 | an INSERT whose two groups are lists without `)`, with line terminators allowed in the white space around items and commas, reads the cleaned columns and the cleaned values in their order |
| Parser.MultiLineInsertExample | server.js:114-143 | `INSERT INTO t (a,\nb) VALUES (1,2)` reads the columns `a` and `b` and the values 1 and 2 |
| Parser.ReadInsert | server.js:116-143 | the INSERT branches, with `cleanValues` as a loop, give what `InsertRequestOf` states |
| Parser.SplitAtInOnce | server.js:153-156 | the FIND split succeeds exactly when `IN` stands as a word at exactly one position, and its parts are the text around it |
| Parser.SelectedColumns | server.js:172-179 | `*` selects all columns (passed as absent), an empty list selects none, and any other list gives its comma-separated pieces, each trimmed, in order |
| Parser.FindRequestOf | server.js:150-219 | FIND fails exactly when the split at `IN` does; the table is the first word after `IN`; DISTINCT is set exactly when it stands as a word before `IN`; condition, LIMIT and OFFSET are absent when their keyword is missing, and otherwise are the leftmost WHERE clause and the numbers after the leftmost `LIMIT\s+\d` and `OFFSET\s+\d`; the columns are those selected by the text before `IN` with its first DISTINCT cut out |
| Parser.FindConditionIsMatch | server.js:182-187 | every condition read comes from a match of the WHERE pattern: the field is the group, followed by the operator and the value |
| Parser.FindConditionNone | server.js:182-187 | no condition is read exactly when the WHERE pattern matches nowhere |
| Parser.FindConditionLeftmost | server.js:182-187 | the condition read is the regular-expression engine's match: the leftmost `WHERE`, the longest white space after it, then the shortest group |
| Parser.FindConditionExample | server.js:182-204 | `WHERE age > 18` reads field `age`, operator `>` and the number 18 |
| Parser.FindOperatorIsLongest | server.js:182 | although `>` and `<` are tried first, a value cannot start at `=`, so FIND reads the longest operator written |
| Parser.FindQuotedValue | server.js:182 | a quoted value is read up to its first closing quote, with both quotes |
| Parser.FindWordValue | server.js:182 | a bare value preceded by a word boundary is the whole word run up to a space, a quote or the end |
| Parser.DigitRun | server.js:191-200 | the `(\d+)` group is a non-empty run of digits right after the white space, ending where the digits end |
| Parser.NumberAfterLeftmost | server.js:191-200 | OFFSET and LIMIT read the number in the digit run of the leftmost match of keyword, white space and digits |
| Parser.NumberAfterNone | server.js:190-202 | OFFSET and LIMIT are absent exactly when their keyword is never followed by white space and a digit |
| Parser.DeleteRequestOf | server.js:263-273 | a failed match throws reading group 1 of null; a match starts with `DELETE FROM `; a bare table name is all word characters |
| Parser.DeleteWithoutWhere | server.js:271-272 | `DELETE FROM t`, with `t` a word, asks to show table `t` |
| Parser.ValidatedDeleteHasWhere | server.js:263-273 | a DELETE accepted by the bounded validator never falls back to showing the table |
| Parser.GluedWhereReachesShowTable | src/handlers/syntaxHandler.js:116 | as written, the validator accepts `DELETE FROM tWHEREaIN`, and the executor then shows table `tWHEREaIN` |
| Dispatcher.GluedWhereShowsTable | server.js:73-78 | as written, `DELETE FROM tWHEREaIN` through the whole of `executeCommand` asks to show table `tWHEREaIN` |
| Parser.SetNames | server.js:311 | each SET name is the text before the first `=`, trimmed |
| Parser.SetPairHasEquals | server.js:310 | every SET pair the scan finds contains `=` |
| Parser.UnescapePlain | server.js:317 | a value without backslashes is not changed by the unescaping |
| Parser.StripQuotes | server.js:315-321 | the second cleaning leaves null, numbers and strings that are not wrapped in quotes as they are |
| Parser.UnescapeEscapeQuotes | server.js:317 | removing the backslash before each escaped quote undoes the escaping, whatever other backslashes the text holds |
| Parser.StripQuotesEscaped | server.js:316-317 | a string wrapped in quotes loses one layer of quotes and has its escaped quotes unescaped |
| Parser.SetValues | server.js:312-321 | each SET value is the value of its pair, cleaned, in the order of the pairs |
| Parser.UpdateSplitLast | server.js:288 | between the SET clause and the condition, the pattern splits at the last point where both match, and fails only when there is no such point |
| Parser.UpdateRequestOf | server.js:288-294 | whenever the UPDATE command does not match, the error thrown is the UPDATE format message |
| Parser.UpdateRequestWithoutHead | server.js:288-294 | a command without the `UPDATE <table> SET` head fails with the UPDATE format message |
| Parser.UpdateRequestFails | server.js:288-294 | after the head, the match fails exactly when no point splits the text into a SET clause and a WHERE condition |
| Parser.UpdateRequestRead | server.js:288-312 | a match takes the head's word as the table, the condition read at the last split point (no later point splits), and, in order, the name and value of each SET pair before it |
| Parser.LastSplitIsLast | server.js:288 | the greedy search for the split point returns a point where a condition is read and no later point reads one, and returns nothing only when no point reads one |
| Parser.AsWrittenSplitsTwoCharOperator | server.js:288 | as written, `>=` and `<=` are read as `>` and `<`, with a value starting with `=` |
| Parser.CorrectedKeepsTwoCharOperator | server.js:288 | with longer operators tried first, `>=` and `<=` are read whole, with the value after them |
| Parser.AsWrittenSetValueLosesEquals | server.js:312 | as written, a SET value containing `=` loses everything up to its last `=` |
| Parser.CorrectedSetValueText | server.js:312 | taking the text after the first `=` gives back the value whole |
| Dispatcher.ExecuteInit | server.js:82-86 | INIT replaces the slot with the named database even when `init` throws; its result is `Using database: <name>` |
| Dispatcher.ExecuteCreate | server.js:88-107 | CREATE before INIT throws the guard; otherwise it asks for the table named by the third piece, with the primary key and the unmarked columns of the list between the parentheses |
| Dispatcher.ExecuteInsert | server.js:109-143 | INSERT before INIT throws the guard; when reading the command fails its message is thrown; otherwise it asks to insert the columns and values read into the table named by the third piece |
| Dispatcher.ExecuteFind | server.js:145-219 | FIND asks for a search when a condition was read, and to show the table otherwise |
| Dispatcher.ExecuteDelete | server.js:258-280 | DELETE asks to show the table when there is no WHERE part, and to delete with the condition otherwise |
| Dispatcher.ExecuteUpdate | server.js:283-331 | UPDATE before INIT throws the guard; otherwise it asks for the update read under the given reading, and the engine's answer is the result |
| Dispatcher.ExecuteDrop | server.js:240-256 | DROP DATABASE needs no database; DROP TABLE is guarded; any other element falls through into DELETE |
| Dispatcher.ExecuteDescribe | server.js:221-238 | DESCRIBE TABLE is guarded; DESCRIBE DATABASE passes the slot; any other element falls through into DROP |
| Dispatcher.Dispatch | server.js:81-337 | in either reading, only INIT changes the slot |
| Dispatcher.Execute | server.js:73-78 | a command the validator rejects (under the given reading) throws its message and touches nothing; an accepted one is dispatched; only an accepted INIT changes the slot |
| Dispatcher.GuardBeforeInit | server.js:88-286 | before INIT, CREATE, INSERT, FIND, DELETE and UPDATE throw their guard text (in its two spellings) and make no request |
| Dispatcher.TableElementGuarded | server.js:221-256 | before INIT, DESCRIBE TABLE and DROP TABLE throw the guard |
| Dispatcher.DatabaseElementUnguarded | server.js:221-247 | DESCRIBE DATABASE and DROP DATABASE make their request in any slot, and throw reading `trim` of a missing name |
| Dispatcher.ElementStaysInCase | server.js:221-256 | with DATABASE or TABLE there is no fall-through: DESCRIBE asks for a description and DROP asks for a drop |
| Dispatcher.UnknownElementRunsIntoDelete | server.js:221-280 | with any other element, DESCRIBE and DROP run the DELETE case |
| Dispatcher.DeleteVerdict | src/handlers/syntaxHandler.js:112-122 | a DELETE is accepted exactly when the reading's DELETE pattern matches |
| Dispatcher.DeleteDispatch | server.js:258-280 | an accepted DELETE runs the DELETE case, whatever the reading |
| Dispatcher.ValidatedDeleteDeletes | server.js:258-280 | in the corrected reading, a DELETE that gets through `executeCommand` asks to delete, never to show |
| Dispatcher.InitReplacesSlot | server.js:82-86 | INIT with a name sets the slot to that database and returns a value exactly when `init` does |
| Dispatcher.InitWithoutName | server.js:83 | INIT with no name throws reading `split` of undefined |
| Dispatcher.SaveIsNotExecuted | server.js:333-335 | SAVE, which the validator accepts, has no case and throws `Invalid command action` |
| Dispatcher.RequestSettlesResult | server.js:107-331 | once any request other than INIT is made, the engine's answer is the result |
| Dispatcher.Gateway.constructor | server.js:19 | the slot starts as the placeholder, with no requests |
| Dispatcher.Gateway.ExecuteCommand | server.js:73-338 | the new slot, the requests made and the result are those of `Execute` under the given reading |
| Dispatcher.Gateway.DispatchCommand | server.js:81-337 | the CREATE and INSERT loops, run in place, give what `Dispatch` states under the given reading |
| Framing.Sniff | server.js:24-31 | data containing `HTTP` goes to HTTP, even when it also has `AJX`; data with only `AJX` goes to TCP; anything else is dropped |
| Framing.ChunksFromJoin | server.js:64-71 | the chunks put together are the response |
| Framing.ChunksFromBounded | server.js:64-71 | every chunk is non-empty and at most the chunk size, and every chunk but the last is exactly the chunk size |
| Framing.ChunksFromCount | server.js:64-71 | there are ceil(length / chunk size) chunks |
| Framing.SendLargeResponse | server.js:64-71 | the writes are the chunks in order, then `END_OF_RESPONSE` |
| Framing.EscapeLength | server.js:43 | escaping never shortens a string |
| Framing.JsonQuote | server.js:43 | `JSON.stringify` of a string is wrapped in quotes and at least two characters longer |
| Framing.UnescapeEscape | server.js:43 | reading the escaped string back gives the string |
| Framing.ErrorJson | server.js:49 | the error object is longer than its message |
| Framing.TcpCommand | server.js:38-40 | the command is never longer than the data |
| Framing.MarkedCommand | server.js:38-40 | the marker followed by a command without a marker reads back as that command |
| Framing.TcpWrites | server.js:41-50 | in either reading, the last write is `END_OF_RESPONSE` and the writes before it together are the JSON text of the result; as written, the size test is on `result.length` |
| Framing.CorrectedWrites | server.js:41-47 | in the corrected reading, a value whose JSON fits goes out in one write, and anything else goes through `sendLargeResponse` |
| Framing.CorrectedWritesFit | server.js:41-50 | in the corrected reading, every write before the end mark is at most the chunk size, and together they are the JSON text |
| Framing.AsWrittenWriteOverflows | server.js:42 | as written, the string `abcd` with chunk size 4 goes out as one 6-character write |
| Framing.Respond | server.js:41-50 | the writes are those `TcpWrites` states for the result under the given reading |
| Framing.HandleTcp | server.js:37-52 | the trimmed, marker-stripped command runs against the slot under the given reading; the slot and the log are updated, and the result is framed |
| Framing.HandleHttp | server.js:54-62 | the body runs against the slot under the given reading, updating the slot and the log; a value is rendered and written, and a throw writes nothing |
| Framing.HandleData | server.js:22-35 | dropped data changes nothing; TCP data and HTTP data get their handler's new slot, log and writes |

## Left out

- Sockets, the listener, `async`/`await` and interleaving between connections are not modelled. Each `data` event is a call, and the writes are a sequence.
- Configuration (`PORT`, `CHUNK_SIZE`, dotenv) is not modelled. The chunk size is a positive parameter.
- A `CHUNK_SIZE` taken from the environment is a string, so `i += CHUNK_SIZE` would concatenate. This is not modelled.
- `getHttpRequest` and `createHttpResponse` (src/handlers/http/httpHandler.js) are not part of this model. The request body and the renderer are parameters.
- The storage engine (`DB`, `dropDb`, `describeDatabase` of ajaxdb-core) is a parameter: the `Answer` supplied with a command. An INIT slot is set before `init` is awaited, as in the source.
- `cleanColumns` (src/handlers/utils/string.js) is not part of this model. It is taken to cut at commas and trim each piece.
- `Buffer.toString` decoding is not modelled. Characters are Dafny `char`s, not UTF-16 code units, so lengths of text outside the BMP differ.
- `toUpperCase`, `\w` and the `/i` flag are ASCII-only here.
- Numbers are kept as the literal `parseFloat` reads, not as IEEE doubles, so `1.0` and `1` stay different.
- `JSON.stringify` of non-string values is the `json` text the engine's payload carries. Escaping of lone surrogates is not modelled.
- Syntax.VerifyPattern: the FIND validator is a simplified recogniser, not the full regular expression of syntaxHandler.js:104. It does not model `INNER JOIN … ON`, the operators LIKE, NOT LIKE, IN and NOT IN, parenthesised value lists, or ORDER BY with ASC/DESC. Commands using these are rejected although the source accepts them.
- Syntax.VerifyPattern: the FIND table name is its whole word run, so `FIND * IN tWHERE a = 1` is rejected. The source gives `WHERE` back from `(\w+)` and accepts it; server.js:158-218 then reads the table `tWHERE`.
- Syntax.VerifyPattern: the FIND columns end at the first `\s+IN\s+`. The source can end them at a later one. For example, the source reads `FIND a IN b IN c` as columns `a IN b` and table `c`. The model ends the columns at `a`, and then rejects the ` IN c` left after the table `b`.
- Syntax.VerifyPattern: a DISTINCT followed by white space is always read as the DISTINCT flag. The source can also read it as the column list, as in `FIND DISTINCT IN t`, which the model rejects.
- Syntax.VerifyPattern: an empty FIND column list is rejected. The source's column group is optional.
- Syntax.VerifyPattern: a FIND value that is a word run ends only where the run ends. So `FIND * IN t WHERE a = 5LIMIT 3` is rejected. The source gives `LIMIT` back from `\w+` and reads value `5` and limit `3`.
- Syntax.VerifyPattern: the FIND value is an optionally quoted word run with optional `%` marks, or else digits with at most one `.` part. After a word run the value ends, so `FIND * IN t WHERE a = 1.5`, which the source accepts through its `\d*\.?\d*` alternative, is rejected: the value ends at `1`, and `.5` is left over.
- Syntax.VerifyPattern: the UPDATE validator is a simplified recogniser. The `\d*\.?\d*` alternative inside its SET repetition is not modelled, so a SET clause that only this alternative would extend is rejected.
- Syntax.VerifyPattern: parenthesised value lists in the DELETE pattern are approximated by `(`, list characters and `)`.
- Parser.InsertRequestOf: each INSERT group ends at the first `)` before which the text matches the list pattern `\s*.+?\s*(?:,\s*.+?\s*)*` of server.js:114. The source's backtracking order can carry a group past such a `)`: it tries a longer white-space run and another list item first, as in `(a, )x)` or `( )x)`.
- Parser.ParenGroupAt: does not promise that a group holds no `)`. A `)` that does not end a list stays inside the group, as the source's does: in `(\n)a)` the text before the first `)` has no item, so the group is `\n)a`.
- Parser.InsertRequestOf: equal numbers of columns and values are not required, because the source does not check this.
- `PRIMARY_KEY` is matched case-sensitively by the executor, as in the source, although the validator accepts any casing.
- handleTCP trims the data before stripping the marker, and the model follows that order.
- Parser.CleanAll states only the length. Its contents are stated through Parser.CleanValues and the token lemmas.
- Parser.FindConditionExample is the only FIND example. The FIND operator, quoted value and word value are stated in general by Parser.FindOperatorIsLongest, Parser.FindQuotedValue and Parser.FindWordValue.
- Console logging of errors is not modelled.
- handleHTTP (server.js:54-62) has no `catch`, and the `data` handler (server.js:22-35) does not catch either. A thrown result therefore becomes an unhandled rejection, which ends the Node.js process. The model does not capture this: Framing.HandleHttp writes nothing for that event, and later events run as usual.

## Findings

Each as-written member is stated under `AsWritten`, which the rest of the model follows by default, and each corrected member under `Corrected`.

| source | as written | input that shows it | evidently intended | confidence | as-written member | corrected member |
|---|---|---|---|---|---|---|
| server.js:288 | the operator alternation `=\|!=\|>\|<\|>=\|<=` tries `>` before `>=` | `UPDATE t SET a=1 WHERE b >= 5` reads operator `>` and value `= 5` | `>=` and `<=` read whole | not executed | Parser.AsWrittenSplitsTwoCharOperator | Parser.CorrectedKeepsTwoCharOperator |
| server.js:312 | a SET value is `split('=').pop()`, the text after the last `=` | `UPDATE t SET a='x=y' WHERE b = 1` sets `a` to `y'` | the whole text after the first `=` | not executed | Parser.AsWrittenSetValueLosesEquals | Parser.CorrectedSetValueText |
| server.js:42 | the chunk size is compared with `result.length`, not with the length of the JSON sent | the result `abcd` with chunk size 4 is sent as one 6-character write | no single write longer than the chunk size | not executed | Framing.AsWrittenWriteOverflows | Framing.CorrectedWritesFit |
| src/handlers/syntaxHandler.js:116 | `\s*` between FROM, the table, WHERE and the field lets the validator split one word | `DELETE FROM tWHEREaIN` passes, then the executor shows table `tWHEREaIN` | a WHERE that is a word of its own | not executed | Parser.GluedWhereReachesShowTable | Parser.ValidatedDeleteHasWhere |
