/** The state a statement shares with every statement kind: its closed flag,
    the pending batch and the current result, and the operations of the base
    class that read or change them. Calls into the session are inputs. */
module CassandraBaseStatement {
  import opened Wrappers
  import opened JavaErrors

  const ClosedMessage: string := "Statement was previously closed."
  const NoBatchMessage: string := "No batch statements were submitted"
  const CancelMessage: string := "Cassandra provides no support for interrupting an operation."

  /** `java.sql.Statement.SUCCESS_NO_INFO`. */
  const SuccessNoInfo: int := -2
  /** `java.sql.ResultSet.FETCH_FORWARD`. */
  const FetchForward: int := 1000
  /** What `getUpdateCount` reports: the store never says how many rows changed. */
  const UnknownUpdateCount: int := -1

  /** A result set returned by the cluster driver, known only by identity. */
  datatype RawResultSet = RawResultSet(id: nat)

  /** `CassandraResultSet`: the driver's result set and the null-strings flag it was built with. */
  datatype WrappedResultSet = WrappedResultSet(raw: RawResultSet, returnNullStrings: bool)

  /** `batch` is the pending `BatchStatement` (`None` for `null`), as its fragments in order. */
  datatype Statement = Statement(isClosed: bool, batch: Option<seq<string>>, result: Option<WrappedResultSet>)

  /** A statement after an operation, and what the operation returned or threw. */
  datatype Step<+T> = Step(statement: Statement, outcome: Result<T, Failure>)

  /** The state right after construction. */
  function New(): (st: Statement)
    ensures !st.isClosed && st.batch.None? && st.result.None?
  {
    Statement(false, None, None)
  }

  /** `close`: never fails; only the closed flag changes. */
  function Close(st: Statement): (r: Statement)
    ensures r.isClosed
    ensures r.batch == st.batch && r.result == st.result
  {
    st.(isClosed := true)
  }

  /** `isClosed`: answers from the flag alone and never fails. */
  function IsClosed(st: Statement): (r: bool)
    ensures r <==> st.isClosed
  {
    st.isClosed
  }

  /** Closing twice is closing once, and a closed statement reports itself closed. */
  lemma CloseIdempotent(st: Statement)
    ensures Close(Close(st)) == Close(st)
    ensures IsClosed(Close(st))
  {
  }

  /** `checkClosed`. */
  function CheckClosed(st: Statement): (r: Result<(), Failure>)
    ensures r.Failure? <==> st.isClosed
    ensures r.Failure? ==> r.error == SqlException(ClosedMessage)
  {
    if st.isClosed then Failure(SqlException(ClosedMessage)) else Success(())
  }

  /** `getUpdateCount`. */
  function GetUpdateCount(st: Statement): (r: Result<int, Failure>)
    ensures r.Success? <==> !st.isClosed
    ensures r.Success? ==> r.value == UnknownUpdateCount
    ensures r.Failure? ==> r.error == SqlException(ClosedMessage)
  {
    var _ :- CheckClosed(st);
    Success(UnknownUpdateCount)
  }

  /** `setCursorName`: positioned updates are not supported, so it only checks the flag. */
  function SetCursorName(st: Statement, name: string): (r: Result<Statement, Failure>)
    ensures r.Success? <==> !st.isClosed
    ensures r.Success? ==> r.value == st
  {
    var _ :- CheckClosed(st);
    Success(st)
  }

  /** `getMoreResults()`: there is never a further result. */
  function GetMoreResults(st: Statement): (r: bool)
    ensures !r
  {
    false
  }

  /** `getFetchDirection`: always forward, open or closed. */
  function GetFetchDirection(st: Statement): (r: int)
    ensures r == FetchForward
  {
    FetchForward
  }

  /** `cancel`: interrupting an operation is not supported. */
  function Cancel(st: Statement): (r: Result<Statement, Failure>)
    ensures r == Failure(FeatureNotSupported(Some(CancelMessage)))
  {
    Failure(FeatureNotSupported(Some(CancelMessage)))
  }

  /** The array `executeBatch` returns for a batch of `count` statements. */
  function SuccessCodes(count: nat): (r: seq<int>)
    ensures |r| == count
    ensures forall i :: 0 <= i < count ==> r[i] == SuccessNoInfo
  {
    seq(count, i => SuccessNoInfo)
  }

  /** `executeBatch`; `engine` is the outcome of `session.execute(batchStatement)`. */
  function ExecuteBatch(st: Statement, engine: EngineOutcome<()>): (r: Step<seq<int>>)
    ensures r.statement.batch.None?
    ensures r.statement.isClosed == st.isClosed && r.statement.result == st.result
    ensures r.outcome.Success? <==> st.batch.Some? && engine.Done?
    ensures r.outcome.Success? ==> |r.outcome.value| == |st.batch.value|
    ensures r.outcome.Success? ==> forall i :: 0 <= i < |r.outcome.value| ==> r.outcome.value[i] == SuccessNoInfo
    ensures st.batch.None? ==> r.outcome == Failure(SqlException(NoBatchMessage))
    ensures st.batch.Some? && engine.Threw? ==> r.outcome == Failure(SqlException(engine.thrown.Message()))
  {
    if st.batch.None? then Step(st, Failure(SqlException(NoBatchMessage)))
    else
      var count := |st.batch.value|;
      var cleared := st.(batch := None);
      match engine
      case Threw(t) => Step(cleared, Failure(SqlException(t.Message())))
      case Done(_) => Step(cleared, Success(SuccessCodes(count)))
  }

  /** A batch runs once: right after `executeBatch`, whatever the session did,
      a second `executeBatch` fails with the no-batch message and changes nothing. */
  lemma BatchRunsOnce(st: Statement, first: EngineOutcome<()>, second: EngineOutcome<()>)
    ensures var after := ExecuteBatch(st, first).statement;
      ExecuteBatch(after, second) == Step(after, Failure(SqlException(NoBatchMessage)))
  {
  }

  /** `executeBatch` does not look at the closed flag. */
  lemma BatchIgnoresClosedFlag(st: Statement, engine: EngineOutcome<()>)
    ensures ExecuteBatch(st.(isClosed := true), engine).outcome ==
            ExecuteBatch(st.(isClosed := false), engine).outcome
  {
  }

  /** `executeInner`; `wrapped` is the outcome of building the `CassandraResultSet`
      from `rs` and asking it `isQuery()`. */
  function ExecuteInner(st: Statement, rs: RawResultSet, returnNullStrings: bool,
                        wrapped: EngineOutcome<bool>): (r: Step<bool>)
    ensures r.statement.isClosed == st.isClosed && r.statement.batch == st.batch
    ensures r.outcome.Success? <==> wrapped.Done?
    ensures r.outcome.Success? ==> r.outcome.value == wrapped.value
    ensures r.outcome.Success? ==> (r.statement.result.Some? <==> wrapped.value)
    ensures wrapped == Done(true) ==> r.statement.result == Some(WrappedResultSet(rs, returnNullStrings))
    ensures wrapped.Threw? ==> r.statement == st
    ensures wrapped.Threw? && wrapped.thrown.SyntaxError? ==> r.outcome == Failure(SqlSyntaxError(wrapped.thrown.Message()))
    ensures wrapped.Threw? && wrapped.thrown.OtherError? ==> r.outcome == Failure(SqlException(wrapped.thrown.Message()))
  {
    match wrapped
    case Threw(SyntaxError(m)) => Step(st, Failure(SqlSyntaxError(m)))
    case Threw(OtherError(m)) => Step(st, Failure(SqlException(m)))
    case Done(isQuery) =>
      if !isQuery then Step(st.(result := None), Success(false))
      else Step(st.(result := Some(WrappedResultSet(rs, returnNullStrings))), Success(true))
  }

  // ---------------------------------------------------------------------------
  // lifecycle

  /** The base-class operations a caller can issue on a statement. */
  datatype Op =
    | CloseOp
    | GetUpdateCountOp
    | SetCursorNameOp(name: string)
    | ExecuteBatchOp(engine: EngineOutcome<()>)
    | ExecuteInnerOp(rs: RawResultSet, returnNullStrings: bool, wrapped: EngineOutcome<bool>)

  /** The state after `op`; an operation that throws leaves the state as the
      operation left it when it threw. */
  function Apply(st: Statement, op: Op): Statement {
    match op
    case CloseOp => Close(st)
    case GetUpdateCountOp => st
    case SetCursorNameOp(n) => st
    case ExecuteBatchOp(e) => ExecuteBatch(st, e).statement
    case ExecuteInnerOp(rs, f, w) => ExecuteInner(st, rs, f, w).statement
  }

  function Run(st: Statement, ops: seq<Op>): Statement {
    if |ops| == 0 then st else Apply(Run(st, ops[..|ops| - 1]), ops[|ops| - 1])
  }

  /** Closing is terminal: the flag is set from the first close on, a second
      close is a no-op, and afterwards the flag-checking operations fail. */
  lemma {:induction false} ClosedIsTerminal(st: Statement, ops: seq<Op>)
    ensures Run(st, ops).isClosed <==> st.isClosed || CloseOp in ops
    ensures Run(st, ops).isClosed ==>
      && Close(Run(st, ops)) == Run(st, ops)
      && GetUpdateCount(Run(st, ops)) == Failure(SqlException(ClosedMessage))
      && SetCursorName(Run(st, ops), "").Failure?
  {
    if |ops| > 0 {
      ClosedIsTerminal(st, ops[..|ops| - 1]);
      assert ops == ops[..|ops| - 1] + [ops[|ops| - 1]];
    }
  }
}
