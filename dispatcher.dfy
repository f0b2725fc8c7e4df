/** The command executor (`executeCommand` in server.js) and the database slot
    it keeps (`currentDB`). A command is validated, split at single spaces and
    dispatched on its upper-cased first piece; each action either throws or
    hands one request to the storage engine. The engine is outside the model:
    what it answers is a parameter. */
module Dispatcher {
  import opened JsString
  import opened Coercion
  import Syntax
  import Parser

  /** `currentDB`: the string `'placeholder'` until INIT stores a database in it. */
  datatype Session = Placeholder | Db(name: string)

  /** A request to the storage engine, with what the executor passes on. */
  datatype Call =
    | InitDatabase(database: string)
    | CreateTable(newTable: Option<string>, primaryKey: string, columnNames: seq<string>)
    | Insert(into: Option<string>, columns: Option<seq<Value>>, values: seq<Value>)
    | Find(request: Parser.FindRequest)
    | ShowTable(request: Parser.FindRequest)
    | ShowTableNamed(table: string)
    | DescribeTable(table: string)
    | DescribeDatabase(session: Session, database: string)
    | DropDatabase(database: string)
    | DropTable(table: string)
    | Delete(table: string, condition: Parser.Condition)
    | Update(update: Parser.UpdateRequest)

  /** A JavaScript value a command returns: a string, some other value (its
      `JSON.stringify` text and its `length` when that is a number), or
      undefined or null. */
  datatype Payload = Text(text: string) | Structured(json: string, length: Option<nat>) | Undefined | Null

  /** What the storage engine does with a request: resolve to a value or throw. */
  datatype Answer = Gives(payload: Payload) | Raises(message: string)

  /** How `executeCommand` settles: with a value or with a thrown message. */
  datatype Result = Returned(payload: Payload) | Threw(message: string)

  /** The new slot, the storage request made (if any) and the result. */
  datatype Outcome = Outcome(session: Session, call: Option<Call>, result: Result)

  /** The guard text of CREATE, INSERT, DESCRIBE TABLE and DROP TABLE (misspelt as in the source). */
  const GuardIntialized := "No database intialized. Use \"INIT <database_name>\" to initialize a database."
  /** The guard text of FIND, DELETE and UPDATE. */
  const GuardInitialized := "No database initialized. Use \"INIT <database_name>\" to initialize a database."
  const InvalidAction := "Invalid command action"

  function AnswerResult(answer: Answer): (r: Result)
    ensures answer.Gives? <==> r.Returned?
    ensures answer.Gives? ==> r.payload == answer.payload
    ensures answer.Raises? ==> r.message == answer.message
  {
    match answer
    case Gives(p) => Returned(p)
    case Raises(m) => Threw(m)
  }

  /** One request handed to the engine; its answer becomes the result. */
  function Perform(session: Session, call: Call, answer: Answer): (o: Outcome)
    ensures o.session == session && o.call == Some(call) && o.result == AnswerResult(answer)
  {
    Outcome(session, Some(call), AnswerResult(answer))
  }

  /** An exception before any request. */
  function Throw(session: Session, message: string): (o: Outcome)
    ensures o.session == session && o.call.None? && o.result == Threw(message)
  {
    Outcome(session, None, Threw(message))
  }

  /** `commandParts[2]`, undefined when there are fewer than three pieces. */
  function TableName(parts: seq<string>): (r: Option<string>)
    ensures r.Some? <==> |parts| > 2
    ensures r.Some? ==> r.value == parts[2]
  {
    if |parts| > 2 then Some(parts[2]) else None
  }

  /** `commandParts[2].trim()`: throws when the piece is missing. */
  function TrimmedName(parts: seq<string>): (r: Parser.Parse<string>)
    ensures r.Parsed? <==> |parts| > 2
    ensures r.Parsed? ==> r.value == Trim(parts[2])
    ensures r.Fails? ==> r.message == Parser.CannotRead("undefined", "trim")
  {
    if |parts| > 2 then Parser.Parsed(Trim(parts[2])) else Parser.Fails(Parser.CannotRead("undefined", "trim"))
  }

  // ---------------------------------------------------------------- actions

  /** INIT: the slot holds the new database before `init` runs, so it is replaced
      even when `init` throws; on success the command answers with the name. */
  function ExecuteInit(session: Session, parts: seq<string>, answer: Answer): (o: Outcome)
    ensures Parser.DatabaseName(parts).Fails? ==> o == Throw(session, Parser.DatabaseName(parts).message)
    ensures Parser.DatabaseName(parts).Parsed? ==>
              var name := Parser.DatabaseName(parts).value;
              o.session == Db(name) && o.call == Some(InitDatabase(name)) &&
              o.result == if answer.Gives? then Returned(Text("Using database: " + name)) else Threw(answer.message)
  {
    match Parser.DatabaseName(parts)
    case Fails(m) => Throw(session, m)
    case Parsed(name) =>
      var o := Perform(Db(name), InitDatabase(name), answer);
      if o.result.Returned? then o.(result := Returned(Text("Using database: " + name))) else o
  }

  /** CREATE: the table, the primary key and the remaining columns. */
  function ExecuteCreate(session: Session, command: string, parts: seq<string>, answer: Answer): (o: Outcome)
    ensures o.session == session
    ensures o.call.Some? ==> o.result == AnswerResult(answer)
    ensures session.Placeholder? ==> o == Throw(session, GuardIntialized)
    ensures session.Db? ==> var entries := Parser.CleanColumns(Parser.ColumnListText(command));
              o.call == Some(CreateTable(TableName(parts), Parser.PrimaryKeyOf(entries), Parser.Unkeyed(entries)))
  {
    if !session.Db? then Throw(session, GuardIntialized)
    else
      var entries := Parser.CleanColumns(Parser.ColumnListText(command));
      Perform(session, CreateTable(TableName(parts), Parser.PrimaryKeyOf(entries), Parser.Unkeyed(entries)), answer)
  }

  /** INSERT: the values alone, or the columns and the values. */
  function ExecuteInsert(session: Session, command: string, parts: seq<string>, answer: Answer): (o: Outcome)
    ensures o.session == session
    ensures o.call.Some? ==> o.result == AnswerResult(answer)
    ensures session.Placeholder? ==> o == Throw(session, GuardIntialized)
    ensures session.Db? && Parser.InsertRequestOf(command).Fails? ==> o == Throw(session, Parser.InsertRequestOf(command).message)
    ensures session.Db? && Parser.InsertRequestOf(command).Parsed? ==> var r := Parser.InsertRequestOf(command).value;
              o.call == Some(Insert(TableName(parts), r.columns, r.values))
  {
    if !session.Db? then Throw(session, GuardIntialized)
    else
      match Parser.InsertRequestOf(command)
      case Fails(m) => Throw(session, m)
      case Parsed(request) => Perform(session, Insert(TableName(parts), request.columns, request.values), answer)
  }

  /** FIND: a search when a condition was read, else the table is shown. */
  function ExecuteFind(session: Session, command: string, answer: Answer): (o: Outcome)
    ensures o.session == session
    ensures o.call.Some? ==> o.result == AnswerResult(answer)
    ensures session.Placeholder? ==> o == Throw(session, GuardInitialized)
    ensures o.call.Some? ==> var r := Parser.FindRequestOf(command);
              r.Parsed? && o.call.value == if r.value.condition.Some? then Find(r.value) else ShowTable(r.value)
  {
    if !session.Db? then Throw(session, GuardInitialized)
    else
      match Parser.FindRequestOf(command)
      case Fails(m) => Throw(session, m)
      case Parsed(request) => Perform(session, if request.condition.Some? then Find(request) else ShowTable(request), answer)
  }

  /** DELETE: a table without WHERE part is shown; otherwise rows are deleted. */
  function ExecuteDelete(session: Session, command: string, answer: Answer): (o: Outcome)
    ensures o.session == session
    ensures o.call.Some? ==> o.result == AnswerResult(answer)
    ensures session.Placeholder? ==> o == Throw(session, GuardInitialized)
    ensures o.call.Some? ==> var r := Parser.DeleteRequestOf(command);
              r.Parsed? && o.call.value == match r.value
                                           case ShowNamed(t) => ShowTableNamed(t)
                                           case DeleteWhere(t, c) => Delete(t, c)
  {
    if !session.Db? then Throw(session, GuardInitialized)
    else
      match Parser.DeleteRequestOf(command)
      case Fails(m) => Throw(session, m)
      case Parsed(ShowNamed(t)) => Perform(session, ShowTableNamed(t), answer)
      case Parsed(DeleteWhere(t, c)) => Perform(session, Delete(t, c), answer)
  }

  /** UPDATE, its operator and SET values read as the reading says. */
  function ExecuteUpdate(session: Session, command: string, answer: Answer, reading: Syntax.Reading): (o: Outcome)
    ensures o.session == session
    ensures o.call.Some? ==> o.result == AnswerResult(answer)
    ensures session.Placeholder? ==> o == Throw(session, GuardInitialized)
    ensures o.call.Some? ==> var r := Parser.UpdateRequestOf(command, reading);
              r.Parsed? && o.call.value == Update(r.value)
  {
    if !session.Db? then Throw(session, GuardInitialized)
    else
      match Parser.UpdateRequestOf(command, reading)
      case Fails(m) => Throw(session, m)
      case Parsed(request) => Perform(session, Update(request), answer)
  }

  /** DROP: DATABASE needs no database in the slot, TABLE does; any other
      element runs on into the DELETE case (the inner switch has no default). */
  function ExecuteDrop(session: Session, command: string, parts: seq<string>, answer: Answer): (o: Outcome)
    ensures o.session == session
    ensures o.call.Some? ==> o.result == AnswerResult(answer)
    ensures |parts| < 2 ==> o == Throw(session, Parser.CannotRead("undefined", "toUpperCase"))
  {
    if |parts| < 2 then Throw(session, Parser.CannotRead("undefined", "toUpperCase"))
    else
      var element := Upper(parts[1]);
      if element == "DATABASE" then
        match TrimmedName(parts)
        case Fails(m) => Throw(session, m)
        case Parsed(name) => Perform(session, DropDatabase(name), answer)
      else if element == "TABLE" then
        if !session.Db? then Throw(session, GuardIntialized)
        else match TrimmedName(parts)
          case Fails(m) => Throw(session, m)
          case Parsed(name) => Perform(session, DropTable(name), answer)
      else ExecuteDelete(session, command, answer)
  }

  /** DESCRIBE: DATABASE passes the slot as it is, TABLE needs a database; any
      other element runs on into the DROP case. */
  function ExecuteDescribe(session: Session, command: string, parts: seq<string>, answer: Answer): (o: Outcome)
    ensures o.session == session
    ensures o.call.Some? ==> o.result == AnswerResult(answer)
    ensures |parts| < 2 ==> o == Throw(session, Parser.CannotRead("undefined", "toUpperCase"))
  {
    if |parts| < 2 then Throw(session, Parser.CannotRead("undefined", "toUpperCase"))
    else
      var element := Upper(parts[1]);
      if element == "TABLE" then
        if !session.Db? then Throw(session, GuardIntialized)
        else match TrimmedName(parts)
          case Fails(m) => Throw(session, m)
          case Parsed(name) => Perform(session, DescribeTable(name), answer)
      else if element == "DATABASE" then
        match TrimmedName(parts)
        case Fails(m) => Throw(session, m)
        case Parsed(name) => Perform(session, DescribeDatabase(session, name), answer)
      else ExecuteDrop(session, command, parts, answer)
  }

  /** The dispatch of an accepted command on its upper-cased first piece.
      Its contract says only that the slot changes for INIT alone; the result
      and the request of each action are stated through `Execute` and by the
      case lemmas below (`GuardBeforeInit`, `TableElementGuarded`,
      `DatabaseElementUnguarded`, `ElementStaysInCase`, `UnknownElementRunsIntoDelete`,
      `DeleteDispatch`, `InitReplacesSlot`, `InitWithoutName`, `SaveIsNotExecuted`
      and `RequestSettlesResult`). */
  function Dispatch(session: Session, command: string, answer: Answer, reading: Syntax.Reading): (o: Outcome)
    ensures o.session != session ==> Syntax.ActionOf(command) == "INIT"
  {
    var parts := Split(command, ' ');
    var action := Upper(parts[0]);
    if action == "INIT" then ExecuteInit(session, parts, answer)
    else if action == "CREATE" then ExecuteCreate(session, command, parts, answer)
    else if action == "INSERT" then ExecuteInsert(session, command, parts, answer)
    else if action == "FIND" then ExecuteFind(session, command, answer)
    else if action == "DESCRIBE" then ExecuteDescribe(session, command, parts, answer)
    else if action == "DROP" then ExecuteDrop(session, command, parts, answer)
    else if action == "DELETE" then ExecuteDelete(session, command, answer)
    else if action == "UPDATE" then ExecuteUpdate(session, command, answer, reading)
    else Throw(session, InvalidAction)
  }

  /** `executeCommand`: the validator first; a rejected command reaches nothing. */
  function Execute(session: Session, command: string, answer: Answer, reading: Syntax.Reading): (o: Outcome)
    ensures Syntax.VerifySyntax(command, reading).Rejected? ==> o == Throw(session, Syntax.VerifySyntax(command, reading).message)
    ensures o.session != session ==> Syntax.ActionOf(command) == "INIT" && Syntax.VerifySyntax(command, reading).Accepted?
    ensures Syntax.VerifySyntax(command, reading).Accepted? ==> o == Dispatch(session, command, answer, reading)
  {
    match Syntax.VerifySyntax(command, reading)
    case Rejected(m) => Throw(session, m)
    case Accepted(_) => Dispatch(session, command, answer, reading)
  }

  // ---------------------------------------------------------------- properties
  // Stated of the dispatch after validation; what the validator lets through
  // is stated by Syntax.VerifyElement and Syntax.VerifyPattern.

  /** Before INIT, every action that needs a database throws its guard text
      and reaches nothing; the two spellings are the source's own. */
  lemma GuardBeforeInit(command: string, answer: Answer, reading: Syntax.Reading)
    requires Syntax.ActionOf(command) in {"CREATE", "INSERT", "FIND", "DELETE", "UPDATE"}
    ensures Dispatch(Placeholder, command, answer, reading) ==
              Throw(Placeholder, if Syntax.ActionOf(command) in {"CREATE", "INSERT"} then GuardIntialized else GuardInitialized)
  {
  }

  /** DESCRIBE TABLE and DROP TABLE need a database too. */
  lemma TableElementGuarded(command: string, answer: Answer, reading: Syntax.Reading)
    requires Syntax.ActionOf(command) in {"DESCRIBE", "DROP"}
    requires var parts := Split(command, ' '); |parts| >= 2 && Upper(parts[1]) == "TABLE"
    ensures Dispatch(Placeholder, command, answer, reading) == Throw(Placeholder, GuardIntialized)
  {
  }

  /** DESCRIBE DATABASE and DROP DATABASE run whatever the slot holds: with a
      name they make their request (DESCRIBE passes the slot itself), without
      one reading `trim` of the missing piece throws. */
  lemma DatabaseElementUnguarded(session: Session, command: string, answer: Answer, reading: Syntax.Reading)
    requires Syntax.ActionOf(command) in {"DESCRIBE", "DROP"}
    requires var parts := Split(command, ' '); |parts| >= 2 && Upper(parts[1]) == "DATABASE"
    ensures var parts := Split(command, ' '); var o := Dispatch(session, command, answer, reading);
            if |parts| > 2 then
              o.call == Some(if Syntax.ActionOf(command) == "DESCRIBE" then DescribeDatabase(session, Trim(parts[2]))
                             else DropDatabase(Trim(parts[2])))
            else o == Throw(session, Parser.CannotRead("undefined", "trim"))
  {
  }

  /** A DESCRIBE or DROP naming DATABASE or TABLE, as every accepted one does,
      never runs on into a later case: its request, if any, is of its own action. */
  lemma ElementStaysInCase(session: Session, command: string, answer: Answer, reading: Syntax.Reading)
    requires Syntax.ActionOf(command) in {"DESCRIBE", "DROP"}
    requires var parts := Split(command, ' '); |parts| >= 2 && Upper(parts[1]) in {"DATABASE", "TABLE"}
    ensures var o := Dispatch(session, command, answer, reading);
            o.call.Some? ==>
              if Syntax.ActionOf(command) == "DESCRIBE" then o.call.value.DescribeTable? || o.call.value.DescribeDatabase?
              else o.call.value.DropTable? || o.call.value.DropDatabase?
  {
  }

  /** Any other element runs on through the later cases into DELETE. */
  lemma UnknownElementRunsIntoDelete(session: Session, command: string, answer: Answer, reading: Syntax.Reading)
    requires Syntax.ActionOf(command) in {"DESCRIBE", "DROP"}
    requires var parts := Split(command, ' '); |parts| >= 2 && Upper(parts[1]) !in {"DATABASE", "TABLE"}
    ensures Dispatch(session, command, answer, reading) == ExecuteDelete(session, command, answer)
  {
  }

  /** Corrected, every DELETE the validator lets through that reaches the
      engine asks to delete with a condition: the executor's branch that shows
      the table without one is never taken. */
  lemma ValidatedDeleteDeletes(session: Session, command: string, answer: Answer)
    requires Syntax.ActionOf(command) == "DELETE"
    ensures var o := Execute(session, command, answer, Syntax.Corrected); o.call.Some? ==> o.call.value.Delete?
  {
    Syntax.VerifyPattern(command, Syntax.Corrected);
    if Syntax.DeleteShapeBounded(command) {
      Parser.ValidatedDeleteHasWhere(command);
    }
  }

  /** As written, the glued DELETE gets through the validator and asks to show
      a table named `tWHEREaIN`. */
  lemma GluedWhereShowsTable(name: string, answer: Answer)
    ensures Execute(Db(name), Parser.GluedWhere, answer, Syntax.AsWritten).call == Some(ShowTableNamed("tWHEREaIN"))
  {
    GluedWhereAccepted();
    GluedWhereDispatch(name, answer);
  }

  lemma GluedWhereAccepted()
    ensures Syntax.ActionOf(Parser.GluedWhere) == "DELETE"
    ensures Syntax.VerifySyntax(Parser.GluedWhere, Syntax.AsWritten).Accepted?
  {
    GluedWhereAction();
    Parser.GluedWhereIsValid();
    DeleteVerdict(Parser.GluedWhere, Syntax.AsWritten);
  }

  lemma GluedWhereAction()
    ensures Syntax.ActionOf(Parser.GluedWhere) == "DELETE"
  {
    FirstPieceIs(Parser.GluedWhere, ' ', 6);
    assert Parser.GluedWhere[..6] == "DELETE";
  }

  /** A DELETE is judged by the DELETE pattern of the reading alone. */
  lemma DeleteVerdict(command: string, reading: Syntax.Reading)
    requires Syntax.ActionOf(command) == "DELETE"
    ensures Syntax.VerifySyntax(command, reading).Accepted? <==> Syntax.DeletePattern(command, reading)
  {
  }

  lemma GluedWhereDispatch(name: string, answer: Answer)
    requires Syntax.ActionOf(Parser.GluedWhere) == "DELETE"
    ensures Dispatch(Db(name), Parser.GluedWhere, answer, Syntax.AsWritten).call == Some(ShowTableNamed("tWHEREaIN"))
  {
    DeleteDispatch(Db(name), Parser.GluedWhere, answer, Syntax.AsWritten);
    Parser.GluedWhereShowsTable();
    Parser.GluedWhereTableName();
  }

  /** A DELETE is dispatched to the DELETE case whatever the reading. */
  lemma DeleteDispatch(session: Session, command: string, answer: Answer, reading: Syntax.Reading)
    requires Syntax.ActionOf(command) == "DELETE"
    ensures Dispatch(session, command, answer, reading) == ExecuteDelete(session, command, answer)
  {
  }

  /** INIT with a name replaces the slot whatever `init` does; the name is the
      second piece up to its first `;`. */
  lemma InitReplacesSlot(session: Session, command: string, answer: Answer, reading: Syntax.Reading)
    requires Syntax.ActionOf(command) == "INIT" && |Split(command, ' ')| >= 2
    ensures var name := Parser.DatabaseName(Split(command, ' '));
            var o := Dispatch(session, command, answer, reading);
            name.Parsed? && o.session == Db(name.value) && o.call == Some(InitDatabase(name.value)) &&
            (o.result.Returned? <==> answer.Gives?)
  {
  }

  /** INIT alone (the validator lets it through): reading `split` of the missing name throws. */
  lemma InitWithoutName(session: Session, command: string, answer: Answer, reading: Syntax.Reading)
    requires Syntax.ActionOf(command) == "INIT" && |Split(command, ' ')| == 1
    ensures Dispatch(session, command, answer, reading) == Throw(session, Parser.CannotRead("undefined", "split"))
  {
  }

  /** SAVE, which the validator accepts, has no case in the executor. */
  lemma SaveIsNotExecuted(session: Session, command: string, answer: Answer, reading: Syntax.Reading)
    requires Syntax.ActionOf(command) == "SAVE"
    ensures Dispatch(session, command, answer, reading) == Throw(session, InvalidAction)
  {
  }

  /** Once a request other than `init` is made, its answer is the result. */
  lemma RequestSettlesResult(session: Session, command: string, answer: Answer, reading: Syntax.Reading)
    ensures var o := Dispatch(session, command, answer, reading);
            o.call.Some? && !o.call.value.InitDatabase? ==> o.result == AnswerResult(answer)
  {
  }

  // ---------------------------------------------------------------- the slot

  /** The log of requests: one entry for a request made, none otherwise. */
  function Logged(call: Option<Call>): (log: seq<Call>)
    ensures call.None? <==> log == []
    ensures call.Some? ==> log == [call.value]
  {
    if call.Some? then [call.value] else []
  }

  /** The server: the database slot and the requests handed to the engine so far. */
  class Gateway {
    var session: Session
    var calls: seq<Call>

    constructor()
      ensures session == Placeholder && calls == []
    {
      session := Placeholder;
      calls := [];
    }

    /** Hands one request to the engine and settles with its answer. */
    method Submit(call: Call, answer: Answer) returns (result: Result)
      modifies this
      ensures session == old(session) && calls == old(calls) + [call]
      ensures result == AnswerResult(answer)
    {
      calls := calls + [call];
      result := AnswerResult(answer);
    }

    /** Settles as the pure outcome says, for the actions without loops. */
    method Settle(o: Outcome) returns (result: Result)
      modifies this
      ensures session == o.session && calls == old(calls) + Logged(o.call)
      ensures result == o.result
    {
      session := o.session;
      calls := calls + Logged(o.call);
      result := o.result;
    }

    /** `executeCommand` against the slot: the new slot, the requests and the
        result are those of `Execute`. */
    method ExecuteCommand(command: string, answer: Answer, reading: Syntax.Reading) returns (result: Result)
      modifies this
      ensures var o := Execute(old(session), command, answer, reading);
              session == o.session && calls == old(calls) + Logged(o.call) && result == o.result
    {
      var checked := Syntax.VerifySyntax(command, reading);
      if checked.Rejected? {
        return Threw(checked.message);
      }
      result := DispatchCommand(command, answer, reading);
    }

    /** The dispatch of an accepted command; the CREATE key loop and the INSERT
        value loop run as written. */
    method DispatchCommand(command: string, answer: Answer, reading: Syntax.Reading) returns (result: Result)
      modifies this
      ensures var o := Dispatch(old(session), command, answer, reading);
              session == o.session && calls == old(calls) + Logged(o.call) && result == o.result
    {
      var parts := Split(command, ' ');
      var action := Upper(parts[0]);
      if action == "INIT" {
        var name := Parser.DatabaseName(parts);
        if name.Fails? {
          return Threw(name.message);
        }
        session := Db(name.value);
        result := Submit(InitDatabase(name.value), answer);
        if result.Returned? {
          result := Returned(Text("Using database: " + name.value));
        }
      } else if action == "CREATE" {
        if !session.Db? {
          return Threw(GuardIntialized);
        }
        var entries := Parser.CleanColumns(Parser.ColumnListText(command));
        var primaryKey, columns := Parser.ExtractPrimaryKey(entries);
        result := Submit(CreateTable(TableName(parts), primaryKey, columns), answer);
      } else if action == "INSERT" {
        if !session.Db? {
          return Threw(GuardIntialized);
        }
        var request := Parser.ReadInsert(command);
        if request.Fails? {
          return Threw(request.message);
        }
        result := Submit(Insert(TableName(parts), request.value.columns, request.value.values), answer);
      } else {
        result := Settle(Dispatch(session, command, answer, reading));
      }
    }
  }
}
