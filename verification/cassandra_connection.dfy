/** The JDBC connection as a small state record: the closed and read-only
    flags, the current consistency level, the flag chosen when the
    connection was opened, and a log of the driver resources released by
    `close`. Calls into the session are inputs. */
module CassandraConnection {
  import opened Wrappers
  import opened JavaErrors
  import opened ConsistencyLevels
  import CassandraBaseStatement

  const ClosedMessage: string := "Statement was previously closed."
  const NoTransactionsMessage: string := "Cassandra provides no support for transactions."
  const NativeSqlMessage: string := "Cassandra does not support SQL natively."

  /** `java.sql.Connection.TRANSACTION_NONE`. */
  const TransactionNone: int := 0

  /** The column query older DataGrip versions send, which must see the text
      "null" rather than null values. */
  const SelectColumnsIntroQuery: string :=
    "SELECT column_name as name,\n       validator,\n       columnfamily_name as table_name,\n       type,\n       index_name,\n       index_options,\n       index_type,\n       component_index as position\nFROM system.schema_columns\nWHERE keyspace_name = ?"

  /** A driver object `close` shuts down. */
  datatype Resource = SessionResource | ClusterResource

  /** `released` lists, in order, every resource `close` has shut down. */
  datatype Connection = Connection(
    returnNullStringsFromIntroQuery: bool,
    isClosed: bool,
    isReadOnly: bool,
    consistencyLevel: ConsistencyLevel,
    released: seq<Resource>)

  /** A statement handed out by the connection. */
  datatype CreatedStatement =
    | PlainStatement(level: ConsistencyLevel, base: CassandraBaseStatement.Statement)
    | PreparedStatement(sql: string, level: ConsistencyLevel, returnNullStrings: bool,
                        base: CassandraBaseStatement.Statement)

  /** The constructor. */
  function Open(returnNullStringsFromIntroQuery: bool, level: ConsistencyLevel): (c: Connection)
    ensures !c.isClosed && !c.isReadOnly && c.released == []
    ensures c.consistencyLevel == level
    ensures c.returnNullStringsFromIntroQuery == returnNullStringsFromIntroQuery
  {
    Connection(returnNullStringsFromIntroQuery, false, false, level, [])
  }

  /** `checkClosed`. */
  function CheckClosed(c: Connection): (r: Result<(), Failure>)
    ensures r.Failure? <==> c.isClosed
    ensures r.Failure? ==> r.error == SqlException(ClosedMessage)
  {
    if c.isClosed then Failure(SqlException(ClosedMessage)) else Success(())
  }

  /** `close`: the session and then its cluster are shut down, only if the
      connection was still open; it never fails. */
  function Close(c: Connection): (r: Connection)
    ensures r.isClosed
    ensures r == c.(isClosed := true, released := r.released)
  {
    if c.isClosed then c
    else c.(isClosed := true, released := c.released + [SessionResource, ClusterResource])
  }

  /** `isClosed`: reads the flag and never fails. */
  function IsClosed(c: Connection): (r: bool)
    ensures r <==> c.isClosed
  {
    c.isClosed
  }

  /** Closing twice is closing once: the second call releases nothing. */
  lemma CloseIdempotent(c: Connection)
    ensures Close(Close(c)) == Close(c)
    ensures IsClosed(Close(c))
    ensures Close(c).released ==
      c.released + (if c.isClosed then [] else [SessionResource, ClusterResource])
  {
  }

  /** `getCatalog`; `loggedKeyspace` is the outcome of `session.getLoggedKeyspace()`. */
  function GetCatalog(c: Connection, loggedKeyspace: EngineOutcome<Option<string>>): (r: Result<Option<string>, Failure>)
    ensures c.isClosed ==> r == Failure(SqlException(ClosedMessage))
    ensures !c.isClosed && loggedKeyspace.Done? ==> r == Success(loggedKeyspace.value)
    ensures !c.isClosed && loggedKeyspace.Threw? ==> r == Failure(SqlException(loggedKeyspace.thrown.Message()))
  {
    var _ :- CheckClosed(c);
    match loggedKeyspace
    case Done(k) => Success(k)
    case Threw(t) => Failure(SqlException(t.Message()))
  }

  /** `getSchema` answers what `getCatalog` answers. */
  function GetSchema(c: Connection, loggedKeyspace: EngineOutcome<Option<string>>): (r: Result<Option<string>, Failure>)
    ensures r == GetCatalog(c, loggedKeyspace)
  {
    GetCatalog(c, loggedKeyspace)
  }

  /** `setCatalog` ignores its argument. */
  function SetCatalog(c: Connection, catalog: Option<string>): (r: Connection)
    ensures r == c
  {
    c
  }

  /** `setSchema` forwards to `setCatalog`. */
  function SetSchema(c: Connection, schema: Option<string>): (r: Connection)
    ensures r == c
  {
    SetCatalog(c, schema)
  }

  /** `setClientInfo`: client information is not kept. */
  function SetClientInfo(c: Connection, name: string, value: Option<string>): (r: Connection)
    ensures r == c
  {
    c
  }

  /** `setAutoCommit`: there are no transactions, so the flag is not kept. */
  function SetAutoCommit(c: Connection, autoCommit: bool): (r: Result<Connection, Failure>)
    ensures r.Success? <==> !c.isClosed
    ensures r.Success? ==> r.value == c
    ensures r.Failure? ==> r.error == SqlException(ClosedMessage)
  {
    var _ :- CheckClosed(c);
    Success(c)
  }

  /** `getAutoCommit`: every statement commits on its own. */
  function GetAutoCommit(c: Connection): (r: Result<bool, Failure>)
    ensures r.Success? <==> !c.isClosed
    ensures r.Success? ==> r.value
  {
    var _ :- CheckClosed(c);
    Success(true)
  }

  /** `commit`. */
  function Commit(c: Connection): (r: Result<Connection, Failure>)
    ensures r.Success? <==> !c.isClosed
    ensures r.Success? ==> r.value == c
  {
    var _ :- CheckClosed(c);
    Success(c)
  }

  /** `rollback()`. */
  function Rollback(c: Connection): (r: Result<Connection, Failure>)
    ensures r.Success? <==> !c.isClosed
    ensures r.Success? ==> r.value == c
  {
    var _ :- CheckClosed(c);
    Success(c)
  }

  /** `setReadOnly`. */
  function SetReadOnly(c: Connection, readOnly: bool): (r: Result<Connection, Failure>)
    ensures r.Success? <==> !c.isClosed
    ensures r.Success? ==> r.value == c.(isReadOnly := readOnly)
  {
    var _ :- CheckClosed(c);
    Success(c.(isReadOnly := readOnly))
  }

  /** `isReadOnly`. */
  function IsReadOnly(c: Connection): (r: Result<bool, Failure>)
    ensures r.Success? <==> !c.isClosed
    ensures r.Success? ==> r.value == c.isReadOnly
  {
    var _ :- CheckClosed(c);
    Success(c.isReadOnly)
  }

  /** `setTransactionIsolation`: fails for every level, with the closed check first. */
  function SetTransactionIsolation(c: Connection, level: int): (r: Result<Connection, Failure>)
    ensures r.Failure?
    ensures c.isClosed ==> r.error == SqlException(ClosedMessage)
    ensures !c.isClosed ==> r.error == UnsupportedOperation(NoTransactionsMessage)
  {
    var _ :- CheckClosed(c);
    Failure(UnsupportedOperation(NoTransactionsMessage))
  }

  /** `getTransactionIsolation`. */
  function GetTransactionIsolation(c: Connection): (r: Result<int, Failure>)
    ensures r.Success? <==> !c.isClosed
    ensures r.Success? ==> r.value == TransactionNone
  {
    var _ :- CheckClosed(c);
    Success(TransactionNone)
  }

  /** `nativeSQL`: fails for every text, with the closed check first. */
  function NativeSql(c: Connection, sql: string): (r: Result<string, Failure>)
    ensures r.Failure?
    ensures c.isClosed ==> r.error == SqlException(ClosedMessage)
    ensures !c.isClosed ==> r.error == FeatureNotSupported(Some(NativeSqlMessage))
  {
    var _ :- CheckClosed(c);
    Failure(FeatureNotSupported(Some(NativeSqlMessage)))
  }

  /** `isValid`: an open connection is always valid. */
  function IsValid(c: Connection, timeout: int): (r: Result<bool, Failure>)
    ensures r.Success? <==> !c.isClosed
    ensures r.Success? ==> r.value
  {
    var _ :- CheckClosed(c);
    Success(true)
  }

  /** The accessors the command interceptors use: plain reads and writes of the level. */
  function GetConsistencyLevel(c: Connection): (r: ConsistencyLevel)
    ensures r == c.consistencyLevel
  {
    c.consistencyLevel
  }

  function SetConsistencyLevel(c: Connection, level: ConsistencyLevel): (r: Connection)
    ensures GetConsistencyLevel(r) == level
    ensures r.(consistencyLevel := c.consistencyLevel) == c
  {
    c.(consistencyLevel := level)
  }

  /** `createStatement()`: a fresh statement carrying the current level. */
  function CreateStatement(c: Connection): (r: Result<CreatedStatement, Failure>)
    ensures r.Success? <==> !c.isClosed
    ensures r.Failure? ==> r.error == SqlException(ClosedMessage)
    ensures r.Success? ==> r.value.PlainStatement? && r.value.level == c.consistencyLevel
                           && r.value.base == CassandraBaseStatement.New()
  {
    var _ :- CheckClosed(c);
    Success(PlainStatement(c.consistencyLevel, CassandraBaseStatement.New()))
  }

  /** Whether a statement prepared from `sql` returns real nulls for null strings. */
  function ReturnNullStrings(c: Connection, sql: string): bool {
    c.returnNullStringsFromIntroQuery || sql != SelectColumnsIntroQuery
  }

  /** The flag is off for exactly one text, and only when the connection asked for it. */
  lemma ReturnNullStringsIff(c: Connection, sql: string)
    ensures !ReturnNullStrings(c, sql) <==> !c.returnNullStringsFromIntroQuery && sql == SelectColumnsIntroQuery
  {
  }

  /** `prepareStatement(sql)`; `prepared` is the outcome of `session.prepare(sql)`.
      Anything thrown while preparing becomes `SQLException` with its message. */
  function PrepareStatement(c: Connection, sql: string, prepared: EngineOutcome<()>): (r: Result<CreatedStatement, Failure>)
    ensures r.Success? <==> !c.isClosed && prepared.Done?
    ensures c.isClosed ==> r == Failure(SqlException(ClosedMessage))
    ensures !c.isClosed && prepared.Threw? ==> r == Failure(SqlException(prepared.thrown.Message()))
  {
    var _ :- CheckClosed(c);
    match prepared
    case Threw(t) => Failure(SqlException(t.Message()))
    case Done(_) => Success(PreparedStatement(sql, c.consistencyLevel, ReturnNullStrings(c, sql),
                                              CassandraBaseStatement.New()))
  }

  /** Both statement kinds take the level current when they are created, and a
      later change of the connection's level does not reach them. */
  lemma StatementsTakeCurrentLevel(c: Connection, sql: string, prepared: EngineOutcome<()>, later: ConsistencyLevel)
    requires !c.isClosed && prepared.Done?
    ensures CreateStatement(c).value.level == GetConsistencyLevel(c)
    ensures PrepareStatement(c, sql, prepared).value.level == GetConsistencyLevel(c)
    ensures PrepareStatement(c, sql, prepared).value.returnNullStrings == ReturnNullStrings(c, sql)
    ensures CreateStatement(SetConsistencyLevel(c, later)).value.level == later
  {
  }

  /** Once closed, every guarded operation fails with the closed message. */
  lemma GuardedAfterClose(c: Connection, k: EngineOutcome<Option<string>>, sql: string,
                          prepared: EngineOutcome<()>, b: bool)
    requires c.isClosed
    ensures GetCatalog(c, k) == Failure(SqlException(ClosedMessage))
    ensures GetSchema(c, k) == Failure(SqlException(ClosedMessage))
    ensures CreateStatement(c) == Failure(SqlException(ClosedMessage))
    ensures PrepareStatement(c, sql, prepared) == Failure(SqlException(ClosedMessage))
    ensures SetAutoCommit(c, b) == Failure(SqlException(ClosedMessage))
    ensures GetAutoCommit(c) == Failure(SqlException(ClosedMessage))
    ensures Commit(c) == Failure(SqlException(ClosedMessage))
    ensures Rollback(c) == Failure(SqlException(ClosedMessage))
    ensures SetReadOnly(c, b) == Failure(SqlException(ClosedMessage))
    ensures IsReadOnly(c) == Failure(SqlException(ClosedMessage))
    ensures GetTransactionIsolation(c) == Failure(SqlException(ClosedMessage))
    ensures SetTransactionIsolation(c, TransactionNone) == Failure(SqlException(ClosedMessage))
  {
  }

  // ---------------------------------------------------------------------------
  // lifecycle

  /** The state-changing calls a client can issue on a connection. */
  datatype Op =
    | CloseOp
    | SetReadOnlyOp(readOnly: bool)
    | SetAutoCommitOp(autoCommit: bool)
    | CommitOp
    | RollbackOp
    | SetCatalogOp(catalog: Option<string>)
    | SetClientInfoOp(name: string, value: Option<string>)
    | SetTransactionIsolationOp(isolation: int)
    | SetConsistencyLevelOp(level: ConsistencyLevel)

  /** The state after `op`; a call that throws leaves the state unchanged. */
  function Apply(c: Connection, op: Op): Connection {
    match op
    case CloseOp => Close(c)
    case SetReadOnlyOp(b) => SetReadOnly(c, b).GetOr(c)
    case SetAutoCommitOp(b) => SetAutoCommit(c, b).GetOr(c)
    case CommitOp => Commit(c).GetOr(c)
    case RollbackOp => Rollback(c).GetOr(c)
    case SetCatalogOp(n) => SetCatalog(c, n)
    case SetClientInfoOp(n, v) => SetClientInfo(c, n, v)
    case SetTransactionIsolationOp(l) => SetTransactionIsolation(c, l).GetOr(c)
    case SetConsistencyLevelOp(l) => SetConsistencyLevel(c, l)
  }

  /** The state after `ops`, in order. */
  function Run(c: Connection, ops: seq<Op>): Connection
    decreases |ops|
  {
    if |ops| == 0 then c else Apply(Run(c, ops[..|ops| - 1]), ops[|ops| - 1])
  }

  /** `ops[i]` is the last `setConsistencyLevel` of `ops`. */
  predicate IsLastLevelSet(ops: seq<Op>, i: int) {
    0 <= i < |ops| && ops[i].SetConsistencyLevelOp? &&
    forall j :: i < j < |ops| ==> !ops[j].SetConsistencyLevelOp?
  }

  /** What one call does to the fields the lifecycle lemmas track. */
  lemma ApplyEffect(c: Connection, op: Op)
    ensures Apply(c, op).isClosed <==> c.isClosed || op == CloseOp
    ensures Apply(c, op).released ==
      c.released + (if !c.isClosed && op == CloseOp then [SessionResource, ClusterResource] else [])
    ensures Apply(c, op).consistencyLevel ==
      if op.SetConsistencyLevelOp? then op.level else c.consistencyLevel
    ensures Apply(c, op).returnNullStringsFromIntroQuery == c.returnNullStringsFromIntroQuery
  {
  }

  /** The level after a sequence of calls is the one last set, or the level at
      the start when none was set. */
  lemma {:induction false} LevelIsLastSet(c: Connection, ops: seq<Op>)
    ensures forall i :: IsLastLevelSet(ops, i) ==> Run(c, ops).consistencyLevel == ops[i].level
    ensures (forall j :: 0 <= j < |ops| ==> !ops[j].SetConsistencyLevelOp?) ==>
      Run(c, ops).consistencyLevel == c.consistencyLevel
    decreases |ops|
  {
    if |ops| > 0 {
      var init := ops[..|ops| - 1];
      var last := ops[|ops| - 1];
      LevelIsLastSet(c, init);
      ApplyEffect(Run(c, init), last);
      forall i | IsLastLevelSet(ops, i) && i < |ops| - 1
        ensures IsLastLevelSet(init, i)
      {
        assert !last.SetConsistencyLevelOp?;
      }
      assert (forall j :: 0 <= j < |ops| ==> !ops[j].SetConsistencyLevelOp?) ==>
        forall j :: 0 <= j < |init| ==> !init[j].SetConsistencyLevelOp?;
    }
  }

  /** Over any sequence of calls: the connection is closed exactly when it was
      closed already or a close was issued, the session and cluster are
      released at most once, the level is the one last set (or the level at
      the start when none was set), and the flag chosen at opening never
      changes. */
  lemma {:induction false} ReleasedAtMostOnce(c: Connection, ops: seq<Op>)
    ensures Run(c, ops).isClosed <==> c.isClosed || CloseOp in ops
    ensures Run(c, ops).released ==
      c.released + (if !c.isClosed && CloseOp in ops then [SessionResource, ClusterResource] else [])
    ensures forall i :: IsLastLevelSet(ops, i) ==> Run(c, ops).consistencyLevel == ops[i].level
    ensures (forall j :: 0 <= j < |ops| ==> !ops[j].SetConsistencyLevelOp?) ==>
      Run(c, ops).consistencyLevel == c.consistencyLevel
    ensures Run(c, ops).returnNullStringsFromIntroQuery == c.returnNullStringsFromIntroQuery
    decreases |ops|
  {
    LevelIsLastSet(c, ops);
    if |ops| > 0 {
      var init := ops[..|ops| - 1];
      ReleasedAtMostOnce(c, init);
      ApplyEffect(Run(c, init), ops[|ops| - 1]);
      assert ops == init + [ops[|ops| - 1]];
    }
  }

  /** `ops[i]` is the last `setReadOnly` of `ops`. */
  predicate IsLastReadOnlySet(ops: seq<Op>, i: int) {
    0 <= i < |ops| && ops[i].SetReadOnlyOp? &&
    forall j :: i < j < |ops| ==> !ops[j].SetReadOnlyOp?
  }

  /** While no close is issued, `isReadOnly` answers the last value passed to
      `setReadOnly`, or the value at the start when there was none. */
  lemma {:induction false} ReadOnlyIsLastSet(c: Connection, ops: seq<Op>)
    requires !c.isClosed && CloseOp !in ops
    ensures IsReadOnly(Run(c, ops)).Success?
    ensures forall i :: IsLastReadOnlySet(ops, i) ==> IsReadOnly(Run(c, ops)).value == ops[i].readOnly
    ensures (forall j :: 0 <= j < |ops| ==> !ops[j].SetReadOnlyOp?) ==> IsReadOnly(Run(c, ops)).value == c.isReadOnly
    decreases |ops|
  {
    if |ops| > 0 {
      var init := ops[..|ops| - 1];
      assert CloseOp !in init by {
        assert forall k :: 0 <= k < |init| ==> init[k] == ops[k];
      }
      ReadOnlyIsLastSet(c, init);
      ReleasedAtMostOnce(c, init);
      forall i | IsLastReadOnlySet(ops, i) && i < |ops| - 1
        ensures IsLastReadOnlySet(init, i)
      {
        assert !ops[|ops| - 1].SetReadOnlyOp?;
      }
    }
  }

  /** From a freshly opened connection, `isReadOnly` starts out false. */
  lemma ReadOnlyInitiallyFalse(flag: bool, level: ConsistencyLevel)
    ensures IsReadOnly(Open(flag, level)) == Success(false)
  {
  }

  /** Calls that never fail and never change state, whether or not the
      connection is closed. */
  lemma NeverFailing(c: Connection, name: string, value: Option<string>)
    ensures Run(c, [SetCatalogOp(value), SetClientInfoOp(name, value)]) == c
    ensures IsClosed(SetSchema(c, value)) == c.isClosed
  {
    var ops := [SetCatalogOp(value), SetClientInfoOp(name, value)];
    assert ops[..1] == [SetCatalogOp(value)];
    assert [SetCatalogOp(value)][..0] == [];
    assert Run(c, ops[..1]) == c;
  }
}
