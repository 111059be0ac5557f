/** Running a query: `Connection.execute` of Common/Database/Database.swift over
    Common/Database/SQLite/SQLiteStatement.swift and SQLiteResultSet.swift. SQLite itself is a row cursor whose
    answers may be delayed or replaced by other status codes. */
module QueryExecution {
  import opened Outcomes
  import Hex

  /** The status codes the wrapper tells apart; OTHER is any further one, such as a violated constraint. */
  datatype Status = ROW | DONE | BUSY | ERROR | MISUSE | OTHER

  /** What the library answers to a call: it does the work, or it reports one of these instead.
      Once the list is used up every call does its work. */
  datatype Answer = Work | Busy | Fail | Misused | Unexpected

  /** `localizedCaseInsensitiveContains("commit")`, how the wrapper recognises a commit. */
  predicate IsCommit(sql: string) {
    |sql| >= 6 && (Hex.Lower(sql[..6]) == "commit" || IsCommit(sql[1..]))
  }

  /** A prepared statement: its text, the rows it yields, how many were yielded since the last reset, the answers to
      come, how often stepping answered BUSY, and the wrapper's two flags. */
  datatype Statement<Row> = Statement(
    sql: string, rows: seq<Row>, inTransaction: bool,
    position: nat, answers: seq<Answer>, busySteps: nat,
    isFinalized: bool, isExecuted: bool)

  // ----- The library -----

  function Stepped<Row>(s: Statement<Row>): (Statement<Row>, Status) {
    var a := if s.answers == [] then Work else s.answers[0];
    var t := if s.answers == [] then s else s.(answers := s.answers[1..]);
    match a
    case Busy => (t.(busySteps := t.busySteps + 1), BUSY)
    case Fail => (t, ERROR)
    case Misused => (t, MISUSE)
    case Unexpected => (t, OTHER)
    case Work => if t.position < |t.rows| then (t.(position := t.position + 1), ROW) else (t, DONE)
  }

  function Rewound<Row>(s: Statement<Row>): (Statement<Row>, Status) {
    var a := if s.answers == [] then Work else s.answers[0];
    var t := if s.answers == [] then s else s.(answers := s.answers[1..]);
    match a
    case Busy => (t, BUSY)
    case Fail => (t, ERROR)
    case Misused => (t, MISUSE)
    case Unexpected => (t, OTHER)
    case Work => (t.(position := 0), DONE)
  }

  // ----- The wrapper -----

  datatype QueryError<+E> =
    | AttemptToExecuteFinalizedStatement | StatementWasAlreadyExecuted
    | TransactionMustBeRolledBack | DatabaseError | InvalidStatementState
    | MapError(error: E)

  datatype Ending<+T, +E> = Returned(value: T) | Threw(error: QueryError<E>) | Trapped

  /** The result set's initialiser: reset until the library is no longer busy. */
  function ResetLoop<Row>(s: Statement<Row>): (Statement<Row>, bool)
    decreases |s.answers|
  {
    var (t, status) := Rewound(s);
    if status == BUSY then ResetLoop(t) else (t, status == DONE)
  }

  /** `execute()`: true when there is a result set. */
  function Executed<Row, E>(s: Statement<Row>): (Statement<Row>, Ending<bool, E>)
    decreases |s.answers|
  {
    if s.isFinalized then (s, Threw(AttemptToExecuteFinalizedStatement))
    else if s.isExecuted then (s, Threw(StatementWasAlreadyExecuted))
    else
      var (t, status) := Stepped(s);
      match status
      case DONE => (t.(isExecuted := true), Returned(false))
      case ROW =>
        var (u, ok) := ResetLoop(t.(isExecuted := true));
        (u, if ok then Returned(true) else Trapped)
      case BUSY => if IsCommit(s.sql) || !s.inTransaction then Executed(t) else (t, Threw(TransactionMustBeRolledBack))
      case ERROR => (t, Threw(DatabaseError))
      case MISUSE => (t, Threw(InvalidStatementState))
      case OTHER => (t, Trapped)
  }

  /** `advanceToNextRow()`: true when there is a row to read. */
  function Advanced<Row, E>(s: Statement<Row>): (r: (Statement<Row>, Ending<bool, E>))
    ensures r.0.rows == s.rows && |r.0.answers| <= |s.answers|
    ensures r.1 == Returned(true) ==> s.position < |s.rows| && r.0.position == s.position + 1
    decreases |s.answers|
  {
    var (t, status) := Stepped(s);
    match status
    case DONE => (t, Returned(false))
    case ROW => (t, Returned(true))
    case BUSY => if !s.inTransaction then Advanced(t) else (t, Threw(TransactionMustBeRolledBack))
    case ERROR => (t, Trapped)
    case MISUSE => (t, Trapped)
    case OTHER => (t, Trapped)
  }

  /** Reading rows until there are no more. */
  function Collected<Row, T, E>(s: Statement<Row>, resultMap: Row -> Result<T, E>, result: seq<T>)
    : (Statement<Row>, Ending<seq<T>, E>)
    decreases if s.position <= |s.rows| then |s.rows| - s.position else 0
  {
    var (t, more) := Advanced<Row, E>(s);
    match more
    case Threw(error) => (t, Threw(error))
    case Trapped => (t, Trapped)
    case Returned(more) =>
      if !more then (t, Returned(result))
      else
        match resultMap(t.rows[t.position - 1])
        case Failure(error) => (t, Threw(MapError(error)))
        case Success(value) => Collected(t, resultMap, result + [value])
  }

  function Query<Row, T, E>(s: Statement<Row>, resultMap: Row -> Result<T, E>)
    : (Statement<Row>, Ending<seq<T>, E>)
  {
    var (t, started) := Executed<Row, E>(s);
    match started
    case Threw(error) => (t, Threw(error))
    case Trapped => (t, Trapped)
    case Returned(hasRows) => if hasRows then Collected(t, resultMap, []) else (t, Returned([]))
  }

  // ----- The code, on a statement object -----

  class SQLiteStatement<Row> {
    const sql: string
    const rows: seq<Row>
    const inTransaction: bool
    var position: nat
    var answers: seq<Answer>
    ghost var busySteps: nat
    var isFinalized: bool
    var isExecuted: bool

    ghost function State(): Statement<Row>
      reads this
    {
      Statement(sql, rows, inTransaction, position, answers, busySteps, isFinalized, isExecuted)
    }

    constructor (sql: string, rows: seq<Row>, inTransaction: bool, answers: seq<Answer>)
      ensures State() == Statement(sql, rows, inTransaction, 0, answers, 0, false, false)
    {
      this.sql, this.rows, this.inTransaction := sql, rows, inTransaction;
      position, this.answers, busySteps, isFinalized, isExecuted := 0, answers, 0, false, false;
    }

    method NextAnswer() returns (a: Answer)
      modifies this
      ensures a == (if old(answers) == [] then Work else old(answers)[0])
      ensures State() == if old(answers) == [] then old(State()) else old(State()).(answers := old(answers)[1..])
    {
      if answers == [] {
        return Work;
      }
      a := answers[0];
      answers := answers[1..];
    }

    method Step() returns (status: Status)
      modifies this
      ensures (State(), status) == Stepped(old(State()))
    {
      var a := NextAnswer();
      match a {
        case Busy =>
          busySteps := busySteps + 1;
          status := BUSY;
        case Fail => status := ERROR;
        case Misused => status := MISUSE;
        case Unexpected => status := OTHER;
        case Work =>
          if position < |rows| {
            position := position + 1;
            status := ROW;
          } else {
            status := DONE;
          }
      }
    }

    method Rewind() returns (status: Status)
      modifies this
      ensures (State(), status) == Rewound(old(State()))
    {
      var a := NextAnswer();
      match a {
        case Busy => status := BUSY;
        case Fail => status := ERROR;
        case Misused => status := MISUSE;
        case Unexpected => status := OTHER;
        case Work =>
          position := 0;
          status := DONE;
      }
    }

    method InitResultSet() returns (ok: bool)
      modifies this
      ensures (State(), ok) == ResetLoop(old(State()))
    {
      var status := Rewind();
      while status == BUSY
        invariant status == BUSY ==> ResetLoop(State()) == ResetLoop(old(State()))
        invariant status != BUSY ==> (State(), status == DONE) == ResetLoop(old(State()))
        decreases status == BUSY, |answers|
      {
        status := Rewind();
      }
      return status == DONE;
    }

    method Execute<E>() returns (r: Ending<bool, E>)
      modifies this
      ensures (State(), r) == Executed(old(State()))
      decreases |answers|
    {
      if isFinalized {
        return Threw(AttemptToExecuteFinalizedStatement);
      }
      if isExecuted {
        return Threw(StatementWasAlreadyExecuted);
      }
      var status := Step();
      match status {
        case DONE =>
          isExecuted := true;
          r := Returned(false);
        case ROW =>
          isExecuted := true;
          var ok := InitResultSet();
          r := if ok then Returned(true) else Trapped;
        case BUSY =>
          if IsCommit(sql) || !inTransaction {
            r := Execute();
          } else {
            r := Threw(TransactionMustBeRolledBack);
          }
        case ERROR => r := Threw(DatabaseError);
        case MISUSE => r := Threw(InvalidStatementState);
        case OTHER => r := Trapped;
      }
    }

    method AdvanceToNextRow<E>() returns (r: Ending<bool, E>)
      modifies this
      ensures (State(), r) == Advanced(old(State()))
      decreases |answers|
    {
      var status := Step();
      match status {
        case DONE => r := Returned(false);
        case ROW => r := Returned(true);
        case BUSY =>
          if !inTransaction {
            r := AdvanceToNextRow();
          } else {
            r := Threw(TransactionMustBeRolledBack);
          }
        case ERROR => r := Trapped;
        case MISUSE => r := Trapped;
        case OTHER => r := Trapped;
      }
    }

    /** The connection's loop: one result per row. */
    method RunQuery<T, E>(resultMap: Row -> Result<T, E>) returns (r: Ending<seq<T>, E>)
      modifies this
      ensures (State(), r) == Query(old(State()), resultMap)
    {
      var started: Ending<bool, E> := Execute();
      if !started.Returned? {
        return if started.Trapped? then Trapped else Threw(started.error);
      }
      if !started.value {
        return Returned([]);
      }
      var result := [];
      while true
        invariant Collected(State(), resultMap, result) == Query(old(State()), resultMap)
        decreases if position <= |rows| then |rows| - position else 0
      {
        var more: Ending<bool, E> := AdvanceToNextRow();
        match more {
          case Threw(error) => return Threw(error);
          case Trapped => return Trapped;
          case Returned(b) =>
            if !b {
              return Returned(result);
            }
        }
        var mapped := resultMap(rows[position - 1]);
        if mapped.Failure? {
          return Threw(MapError(mapped.error));
        }
        result := result + [mapped.value];
      }
    }
  }

  // ----- What a query returns -----

  /** A freshly prepared statement. */
  predicate Prepared<Row>(s: Statement<Row>) {
    s.position == 0 && !s.isFinalized && !s.isExecuted
  }

  /** The map applied to all rows in order, stopping at its first error. */
  function MapAll<Row, T, E>(resultMap: Row -> Result<T, E>, rows: seq<Row>): Result<seq<T>, E> {
    if rows == [] then Success([])
    else
      var head :- resultMap(rows[0]);
      var tail :- MapAll(resultMap, rows[1..]);
      Success([head] + tail)
  }

  /** How a query ends when nothing interferes. */
  function Undisturbed<Row, T, E>(resultMap: Row -> Result<T, E>, rows: seq<Row>): Ending<seq<T>, E> {
    match MapAll(resultMap, rows)
    case Success(list) => Returned(list)
    case Failure(error) => Threw(MapError(error))
  }

  predicate OnlyDelays(answers: seq<Answer>) {
    forall i | 0 <= i < |answers| :: answers[i] == Work || answers[i] == Busy
  }

  lemma SteppedFacts<Row>(s: Statement<Row>)
    ensures var (t, status) := Stepped(s);
      && t.rows == s.rows && t.inTransaction == s.inTransaction && t.sql == s.sql
      && t.isFinalized == s.isFinalized && t.isExecuted == s.isExecuted
      && t.busySteps == s.busySteps + (if status == BUSY then 1 else 0)
      && (OnlyDelays(s.answers) ==> OnlyDelays(t.answers) && status != ERROR && status != MISUSE && status != OTHER)
      && (status == BUSY ==> |t.answers| < |s.answers| && t.position == s.position)
  {}

  lemma {:induction false} ResetFacts<Row>(s: Statement<Row>)
    ensures var (t, ok) := ResetLoop(s);
      && t == s.(answers := t.answers, position := t.position)
      && (ok ==> t.position == 0)
      && (OnlyDelays(s.answers) ==> ok && OnlyDelays(t.answers))
    decreases |s.answers|
  {
    var (t, status) := Rewound(s);
    if status == BUSY { ResetFacts(t); }
  }

  /** Executing either yields nothing because there are no rows, or leaves the cursor before the first row. */
  lemma {:induction false} ExecutedFacts<Row, E>(s: Statement<Row>)
    requires Prepared(s)
    ensures var (t, r) := Executed<Row, E>(s);
      && t.rows == s.rows && t.inTransaction == s.inTransaction && t.sql == s.sql
      && (r == Returned(false) ==> s.rows == [])
      && (r == Returned(true) ==> t.position == 0)
      && t.busySteps >= s.busySteps
      && !(r.Threw? && r.error.MapError?)
      && (r.Threw? && r.error == TransactionMustBeRolledBack <==>
            s.inTransaction && !IsCommit(s.sql) && t.busySteps > s.busySteps)
      && (OnlyDelays(s.answers) ==> OnlyDelays(t.answers) && !r.Trapped?)
      && (OnlyDelays(s.answers) && r.Threw? ==> r.error == TransactionMustBeRolledBack)
    decreases |s.answers|
  {
    var (t, status) := Stepped(s);
    SteppedFacts(s);
    if status == ROW {
      ResetFacts(t.(isExecuted := true));
    } else if status == BUSY && (IsCommit(s.sql) || !s.inTransaction) {
      ExecutedFacts<Row, E>(t);
    }
  }

  lemma {:induction false} AdvancedFacts<Row, E>(s: Statement<Row>)
    requires s.position <= |s.rows|
    ensures var (t, r) := Advanced<Row, E>(s);
      && t.rows == s.rows && t.inTransaction == s.inTransaction && t.position <= |t.rows|
      && (r == Returned(false) ==> s.position == |s.rows|)
      && t.busySteps >= s.busySteps
      && !(r.Threw? && r.error.MapError?)
      && (r.Threw? && r.error == TransactionMustBeRolledBack <==> s.inTransaction && t.busySteps > s.busySteps)
      && (OnlyDelays(s.answers) ==> OnlyDelays(t.answers) && !r.Trapped?)
      && (OnlyDelays(s.answers) && r.Threw? ==> r.error == TransactionMustBeRolledBack)
    decreases |s.answers|
  {
    var (t, status) := Stepped(s);
    SteppedFacts(s);
    if status == BUSY && !s.inTransaction {
      AdvancedFacts<Row, E>(t);
    }
  }

  /** Once some results are collected, the ending is the one the remaining rows give, or a disturbance. */
  lemma {:induction false} CollectedFacts<Row, T, E>(s: Statement<Row>, resultMap: Row -> Result<T, E>, result: seq<T>)
    requires s.position <= |s.rows|
    ensures var (t, r) := Collected(s, resultMap, result);
      var rest := MapAll(resultMap, s.rows[s.position..]);
      && (r.Returned? ==> rest.Success? && r.value == result + rest.value)
      && (r.Threw? && r.error.MapError? ==> rest.Failure? && rest.error == r.error.error)
      && t.busySteps >= s.busySteps
      && (r.Threw? && r.error == TransactionMustBeRolledBack <==> s.inTransaction && t.busySteps > s.busySteps)
      && (OnlyDelays(s.answers) ==> !r.Trapped?)
      && (OnlyDelays(s.answers) && r.Threw? ==> r.error == TransactionMustBeRolledBack || r.error.MapError?)
    decreases |s.rows| - s.position
  {
    hide Advanced;
    var (t, more) := Advanced<Row, E>(s);
    AdvancedFacts<Row, E>(s);
    if more == Returned(true) {
      var rest := s.rows[s.position..];
      assert rest[0] == s.rows[s.position] && rest[1..] == s.rows[t.position..];
      var mapped := resultMap(t.rows[t.position - 1]);
      if mapped.Success? {
        CollectedFacts(t, resultMap, result + [mapped.value]);
      }
    } else {
      assert more == Returned(false) ==> s.rows[s.position..] == [];
    }
  }

  /** The whole query, whatever the library answers. A list is only ever returned whole: every row mapped
      once, in order. Inside a transaction a statement other than a commit is told to roll back exactly when
      some step answered BUSY. */
  lemma QueryFacts<Row, T, E>(s: Statement<Row>, resultMap: Row -> Result<T, E>)
    requires Prepared(s)
    ensures var (t, r) := Query(s, resultMap);
      && (r.Returned? ==> MapAll(resultMap, s.rows) == Success(r.value))
      && (r.Threw? && r.error.MapError? ==> MapAll(resultMap, s.rows) == Failure(r.error.error))
      && (s.inTransaction && !IsCommit(s.sql) ==>
            (r == Threw(TransactionMustBeRolledBack) <==> t.busySteps > s.busySteps))
      && (!s.inTransaction ==> r != Threw(TransactionMustBeRolledBack))
      && (OnlyDelays(s.answers) ==> r == Undisturbed(resultMap, s.rows) || r == Threw(TransactionMustBeRolledBack))
  {
    hide Executed, Collected, OnlyDelays;
    var (t, started) := Executed<Row, E>(s);
    ExecutedFacts<Row, E>(s);
    if started == Returned(true) {
      CollectedFacts(t, resultMap, []);
      assert t.rows[0..] == s.rows;
      var (u, r) := Collected(t, resultMap, []);
      if r.Returned? {
        assert [] + MapAll(resultMap, s.rows).value == MapAll(resultMap, s.rows).value;
      }
    }
  }

  /** Inside a transaction a statement whose text mentions a commit is told to roll back exactly when it
      yields rows and a step after the first answered BUSY; until then it is retried. */
  lemma CommitTextFacts<Row, T, E>(s: Statement<Row>, resultMap: Row -> Result<T, E>)
    requires Prepared(s) && s.inTransaction && IsCommit(s.sql)
    ensures var (t, started) := Executed<Row, E>(s);
      var (u, r) := Query(s, resultMap);
      r == Threw(TransactionMustBeRolledBack) <==> started == Returned(true) && u.busySteps > t.busySteps
  {
    hide Executed, Collected, OnlyDelays, IsCommit;
    var (t, started) := Executed<Row, E>(s);
    ExecutedFacts<Row, E>(s);
    if started == Returned(true) {
      CollectedFacts(t, resultMap, []);
    }
  }

  /** Two statements of one transaction, each finding the database busy once. */
  function BusyOnce(sql: string): Statement<int> {
    Statement(sql, [], true, 0, [Busy], 0, false, false)
  }

  /** A text that merely mentions a commit is retried where another one is told to roll back. */
  lemma MentionedCommitIsRetried<T, E>(resultMap: int -> Result<T, E>)
    ensures Query(BusyOnce("UPDATE commits SET n = 1;"), resultMap).1 == Returned([])
    ensures Query(BusyOnce("UPDATE users SET n = 1;"), resultMap).1 == Threw(TransactionMustBeRolledBack)
  {
    hide IsCommit;
    CommitsMentioned();
    var s := BusyOnce("UPDATE commits SET n = 1;");
    CommitIsRetried(s, resultMap);
  }

  lemma CommitsMentioned()
    ensures IsCommit("UPDATE commits SET n = 1;") && !IsCommit("UPDATE users SET n = 1;")
  {
    hide IsCommit;
    CommitInside("UPDATE ", "commit", "s SET n = 1;");
    assert "UPDATE " + "commit" + "s SET n = 1;" == "UPDATE commits SET n = 1;";
    NoLetterC("UPDATE users SET n = 1;");
  }

  lemma {:induction false} CommitInside(before: string, word: string, after: string)
    requires Hex.Lower(word) == "commit"
    ensures IsCommit(before + word + after)
  {
    var sql := before + word + after;
    if before == "" {
      assert sql[..6] == word;
    } else {
      CommitInside(before[1..], word, after);
      assert sql[1..] == before[1..] + word + after;
    }
  }

  lemma {:induction false} NoLetterC(sql: string)
    requires forall i | 0 <= i < |sql| :: sql[i] != 'c' && sql[i] != 'C'
    ensures !IsCommit(sql)
  {
    if |sql| >= 6 {
      assert Hex.Lower(sql[..6])[0] != 'c';
      NoLetterC(sql[1..]);
    }
  }

  /** Outside a transaction any finite number of BUSY answers changes nothing. */
  lemma DelaysDoNotMatter<Row, T, E>(s: Statement<Row>, resultMap: Row -> Result<T, E>)
    requires Prepared(s) && !s.inTransaction && OnlyDelays(s.answers)
    ensures Query(s, resultMap).1 == Undisturbed(resultMap, s.rows)
  {
    hide Query, OnlyDelays;
    QueryFacts(s, resultMap);
  }

  /** The mapped list, row by row. */
  lemma {:induction false} MapAllByRow<Row, T, E>(resultMap: Row -> Result<T, E>, rows: seq<Row>)
    ensures var r := MapAll(resultMap, rows);
      && (r.Success? <==> forall i | 0 <= i < |rows| :: resultMap(rows[i]).Success?)
      && (r.Success? ==> |r.value| == |rows| && forall i | 0 <= i < |rows| :: resultMap(rows[i]) == Success(r.value[i]))
  {
    if rows != [] {
      MapAllByRow(resultMap, rows[1..]);
      var r := MapAll(resultMap, rows);
      if r.Success? {
        forall i | 0 <= i < |rows| ensures resultMap(rows[i]) == Success(r.value[i]) {
          if i > 0 { assert rows[i] == rows[1..][i - 1]; }
        }
      } else if resultMap(rows[0]).Success? {
        var k :| 0 <= k < |rows[1..]| && !resultMap(rows[1..][k]).Success?;
        assert rows[k + 1] == rows[1..][k];
      }
    }
  }

  /** A commit, which yields no rows, is retried until it is done, even inside its transaction. */
  lemma {:induction false} CommitIsRetried<Row, T, E>(s: Statement<Row>, resultMap: Row -> Result<T, E>)
    requires Prepared(s) && IsCommit(s.sql) && s.rows == [] && OnlyDelays(s.answers)
    ensures Query(s, resultMap).1 == Returned([])
    decreases |s.answers|
  {
    var (t, status) := Stepped(s);
    SteppedFacts(s);
    if status == BUSY {
      CommitIsRetried(t, resultMap);
    }
  }

  /** A statement runs once: executing it again throws and moves nothing. */
  lemma {:induction false} RunsOnce<Row, E>(s: Statement<Row>)
    requires Prepared(s)
    ensures var (t, r) := Executed<Row, E>(s);
      r.Returned? ==> Executed<Row, E>(t) == (t, Threw(StatementWasAlreadyExecuted))
    decreases |s.answers|
  {
    var (t, status) := Stepped(s);
    SteppedFacts(s);
    if status == ROW {
      ResetFacts(t.(isExecuted := true));
    } else if status == BUSY && (IsCommit(s.sql) || !s.inTransaction) {
      RunsOnce<Row, E>(t);
    }
  }

  // ----- Disturbances -----

  /** The first answer that is not BUSY, and what follows it. */
  function FirstReady(answers: seq<Answer>): (Answer, seq<Answer>) {
    if answers == [] then (Work, [])
    else if answers[0] == Busy then FirstReady(answers[1..])
    else (answers[0], answers[1..])
  }

  /** Outside a transaction, or for a commit, the first answer that is not BUSY decides how execution ends; the
      reset behind a first row is decided likewise by the answers after it. */
  lemma {:induction false} ExecutionOutcome<Row, E>(s: Statement<Row>)
    requires Prepared(s) && (!s.inTransaction || IsCommit(s.sql))
    ensures var (a, later) := FirstReady(s.answers);
      Executed<Row, E>(s).1 ==
      match a
      case Work =>
        if s.rows == [] then Returned(false) else if FirstReady(later).0 == Work then Returned(true) else Trapped
      case Fail => Threw(DatabaseError)
      case Misused => Threw(InvalidStatementState)
      case _ => Trapped
    decreases |s.answers|
  {
    hide IsCommit;
    var (t, status) := Stepped(s);
    SteppedFacts(s);
    if status == BUSY {
      ExecutionOutcome<Row, E>(t);
    } else if status == ROW {
      ResetOutcome(t.(isExecuted := true));
    }
  }

  lemma {:induction false} ResetOutcome<Row>(s: Statement<Row>)
    ensures var (t, ok) := ResetLoop(s);
      && (ok <==> FirstReady(s.answers).0 == Work) && t.answers == FirstReady(s.answers).1
    decreases |s.answers|
  {
    var (t, status) := Rewound(s);
    if status == BUSY {
      ResetOutcome(t);
    }
  }

  /** Moving to the next row: anything but a row or the end stops the process, BUSY is waited out. */
  lemma {:induction false} AdvanceOutcome<Row, E>(s: Statement<Row>)
    requires !s.inTransaction
    ensures Advanced<Row, E>(s).1 ==
            if FirstReady(s.answers).0 == Work then Returned(s.position < |s.rows|) else Trapped
    decreases |s.answers|
  {
    var (t, status) := Stepped(s);
    SteppedFacts(s);
    if status == BUSY {
      AdvanceOutcome<Row, E>(t);
    }
  }

  /** A finalized statement throws and moves nothing. */
  lemma FinalizedThrows<Row, E>(s: Statement<Row>)
    requires s.isFinalized
    ensures Executed<Row, E>(s) == (s, Threw(AttemptToExecuteFinalizedStatement))
  {}
}
