/** The two meta-commands the driver answers itself instead of sending them
    to the cluster: `CONSISTENCY <level>` sets the connection's consistency
    level and `CONSISTENCY` reads it back. Each recogniser matches the whole
    trimmed text against a case-insensitive pattern and answers `None` (Java
    `null`) when it does not match. */
module StatementExecutors {
  import opened Wrappers
  import opened JavaText
  import opened JavaErrors
  import opened ConsistencyLevels
  import opened CassandraConnection

  const Keyword: string := "CONSISTENCY"
  const LevelColumn: string := "consistency_level"

  /** The message of `new SQLException(e)` for the exception `valueOf` throws on `name`. */
  function UnknownLevelMessage(name: string): string {
    "java.lang.IllegalArgumentException: No enum constant com.datastax.driver.core.ConsistencyLevel." + name
  }

  /** `ListResultSet`: a one-column, one-row result. */
  datatype ListResultSet = ListResultSet(value: string, columnName: string)

  /** `ExecutionResult`; `resultSet` is `None` for Java's `null`. */
  datatype ExecutionResult = ExecutionResult(resultSet: Option<ListResultSet>)

  /** The connection after a recogniser ran, and what it returned or threw;
      `Success(None)` is a text the recogniser does not handle. */
  datatype Step = Step(connection: Connection, outcome: Result<Option<ExecutionResult>, Failure>)

  /** The default `\w` class: ASCII letters, digits and underscore. */
  predicate IsWordChar(c: char) {
    'a' <= c <= 'z' || 'A' <= c <= 'Z' || '0' <= c <= '9' || c == '_'
  }

  /** The text `\w+` matches. */
  predicate IsWord(s: string) {
    |s| > 0 && forall k :: 0 <= k < |s| ==> IsWordChar(s[k])
  }

  /** Whole-text match of `CONSISTENCY (\w+)`, case-insensitive: the group, if any. */
  function SetArgument(t: string): (r: Option<string>)
    ensures r.Some? ==> IsWord(r.value) && |r.value| < |t|
  {
    var n := |Keyword|;
    if |t| > n + 1 && EqualsIgnoreCase(t[..n], Keyword) && t[n] == ' ' && IsWord(t[n + 1..])
    then Some(t[n + 1..])
    else None
  }

  /** Whole-text match of `CONSISTENCY`, case-insensitive. */
  predicate GetMatches(t: string) {
    EqualsIgnoreCase(t, Keyword)
  }

  /** The set pattern accepts exactly the keyword in any case, one space and a word. */
  lemma SetArgumentIff(t: string, w: string)
    ensures SetArgument(t) == Some(w) <==>
      IsWord(w) && exists k :: EqualsIgnoreCase(k, Keyword) && t == k + " " + w
  {
    if IsWord(w) && exists k :: EqualsIgnoreCase(k, Keyword) && t == k + " " + w {
      var k :| EqualsIgnoreCase(k, Keyword) && t == k + " " + w;
      assert t[..|Keyword|] == k;
      assert t[|Keyword| + 1..] == w;
    }
    if SetArgument(t) == Some(w) {
      var k := t[..|Keyword|];
      assert t == k + " " + w;
    }
  }

  /** No text is matched by both patterns. */
  lemma PatternsExclusive(t: string)
    ensures !(SetArgument(t).Some? && GetMatches(t))
  {
  }

  /** `SetConsistencyLevelExecutor.execute`. */
  function ExecuteSet(c: Connection, sql: string): (r: Step)
    ensures r.connection.(consistencyLevel := c.consistencyLevel) == c
    ensures r.outcome == Success(None) <==> SetArgument(Trim(sql)).None?
    ensures r.outcome.Failure? || r.outcome == Success(None) ==> r.connection == c
    ensures r.outcome.Success? && r.outcome.value.Some? ==> r.outcome.value.value.resultSet.None?
  {
    match SetArgument(Trim(sql))
    case None => Step(c, Success(None))
    case Some(word) =>
      var name := ToUpper(word);
      match ValueOf(name)
      case None => Step(c, Failure(SqlException(UnknownLevelMessage(name))))
      case Some(level) => Step(SetConsistencyLevel(c, level), Success(Some(ExecutionResult(None))))
  }

  /** `GetConsistencyLevelExecutor.execute`. */
  function ExecuteGet(c: Connection, sql: string): (r: Step)
    ensures r.connection == c
    ensures r.outcome.Success?
    ensures r.outcome.value.Some? <==> GetMatches(Trim(sql))
    ensures r.outcome.value.Some? ==>
      r.outcome.value.value.resultSet == Some(ListResultSet(Name(c.consistencyLevel), LevelColumn))
  {
    if GetMatches(Trim(sql))
    then Step(c, Success(Some(ExecutionResult(Some(ListResultSet(Name(GetConsistencyLevel(c)), LevelColumn))))))
    else Step(c, Success(None))
  }

  /** On a matching text the set executor either installs the level the
      upper-cased word names, or fails naming that word when no level has
      that name, leaving the level as it was. */
  lemma ExecuteSetOnMatch(c: Connection, sql: string, w: string)
    requires SetArgument(Trim(sql)) == Some(w)
    ensures (exists l :: Name(l) == ToUpper(w)) ==>
      ExecuteSet(c, sql).outcome == Success(Some(ExecutionResult(None))) &&
      Name(ExecuteSet(c, sql).connection.consistencyLevel) == ToUpper(w)
    ensures (forall l :: Name(l) != ToUpper(w)) ==>
      ExecuteSet(c, sql) == Step(c, Failure(SqlException(UnknownLevelMessage(ToUpper(w)))))
  {
    if exists l :: Name(l) == ToUpper(w) {
      var l :| Name(l) == ToUpper(w);
      ValueOfName(l);
    }
  }

  /** Every level name is a `\w+` word in upper case. */
  lemma NameIsUpperWord(l: ConsistencyLevel)
    ensures IsWord(Name(l)) && ToUpper(Name(l)) == Name(l)
  {
    var s := Name(l);
    assert forall k :: 0 <= k < |s| ==> 'A' <= s[k] <= 'Z' || s[k] == '_';
  }

  /** A command spelling the keyword in any case, with blank padding around it,
      sets the level whose name is the word in any case. */
  lemma SetCommandSetsLevel(c: Connection, pre: string, k: string, w: string, post: string, l: ConsistencyLevel)
    requires AllBlank(pre) && AllBlank(post)
    requires EqualsIgnoreCase(k, Keyword)
    requires IsWord(w) && ToUpper(w) == Name(l)
    ensures ExecuteSet(c, pre + k + " " + w + post) == Step(SetConsistencyLevel(c, l), Success(Some(ExecutionResult(None))))
  {
    var t := k + " " + w;
    assert !IsBlank(k[0]) by {
      assert ToLowerChar(k[0]) == ToLowerChar(Keyword[0]);
    }
    assert t[|t| - 1] == w[|w| - 1];
    assert pre + k + " " + w + post == pre + t + post;
    TrimOfPadded(pre, t, post);
    SetArgumentIff(t, w);
    ValueOfName(l);
  }

  /** The canonical set command `CONSISTENCY <w>` is left alone by `trim`
      and matches with `w` as its group. */
  lemma CanonicalSetCommand(w: string)
    requires IsWord(w)
    ensures Trim(Keyword + " " + w) == Keyword + " " + w
    ensures SetArgument(Keyword + " " + w) == Some(w)
  {
    var sql := Keyword + " " + w;
    assert sql[|sql| - 1] == w[|w| - 1];
    TrimOfSolid(sql);
    assert EqualsIgnoreCase(Keyword, Keyword);
    SetArgumentIff(sql, w);
  }

  /** A word that names no level fails with the upper-cased word in the
      message and keeps the level. */
  lemma UnknownWordFails(c: Connection, w: string)
    requires IsWord(w) && forall l :: Name(l) != ToUpper(w)
    ensures ExecuteSet(c, Keyword + " " + w) ==
      Step(c, Failure(SqlException(UnknownLevelMessage(ToUpper(w)))))
  {
    CanonicalSetCommand(w);
    ExecuteSetOnMatch(c, Keyword + " " + w, w);
  }

  /** `bogus` is such a word. */
  lemma BogusIsUnknown()
    ensures IsWord("bogus") && ToUpper("bogus") == "BOGUS"
    ensures forall l :: Name(l) != ToUpper("bogus")
  {
    forall l: ConsistencyLevel
      ensures Name(l) != "BOGUS"
    {
      assert Name(l)[0] != 'B';
    }
  }

  /** Only the ends are trimmed: with two spaces inside, neither executor matches. */
  lemma InnerSpacingMatters(c: Connection)
    ensures ExecuteSet(c, "CONSISTENCY  ONE") == Step(c, Success(None))
    ensures ExecuteGet(c, "CONSISTENCY  ONE") == Step(c, Success(None))
  {
    var sql := "CONSISTENCY  ONE";
    TrimOfSolid(sql);
    assert !IsWordChar(sql[12]);
  }

  /** Round trip: after a successful set, get answers the upper-cased word the
      set was given, which is the name of the level now in force. */
  lemma SetThenGet(c: Connection, setSql: string, getSql: string)
    requires ExecuteSet(c, setSql).outcome.Success? && ExecuteSet(c, setSql).outcome.value.Some?
    requires GetMatches(Trim(getSql))
    ensures ExecuteGet(ExecuteSet(c, setSql).connection, getSql).outcome ==
      Success(Some(ExecutionResult(Some(ListResultSet(ToUpper(SetArgument(Trim(setSql)).value), LevelColumn)))))
  {
    var w := SetArgument(Trim(setSql)).value;
    var l := ValueOf(ToUpper(w)).value;
    ValueOfIff(ToUpper(w), l);
  }

  /** `CONSISTENCY bogus` fails, naming `BOGUS`, and keeps the level. */
  lemma BogusFails(c: Connection)
    ensures ExecuteSet(c, Keyword + " " + "bogus") ==
      Step(c, Failure(SqlException(UnknownLevelMessage("BOGUS"))))
  {
    BogusIsUnknown();
    UnknownWordFails(c, "bogus");
  }

  /** `CONSISTENCY <name>` installs the named level. */
  lemma NamedLevelSets(c: Connection, l: ConsistencyLevel)
    ensures ExecuteSet(c, Keyword + " " + Name(l)) ==
      Step(SetConsistencyLevel(c, l), Success(Some(ExecutionResult(None))))
  {
    NameIsUpperWord(l);
    assert EqualsIgnoreCase(Keyword, Keyword);
    KeywordWordSets(c, l, Keyword, Name(l));
  }

  /** The keyword in any case, one space and a word naming a level in any case
      installs that level. */
  lemma KeywordWordSets(c: Connection, l: ConsistencyLevel, k: string, w: string)
    requires EqualsIgnoreCase(k, Keyword)
    requires IsWord(w) && ToUpper(w) == Name(l)
    ensures ExecuteSet(c, k + " " + w) == Step(SetConsistencyLevel(c, l), Success(Some(ExecutionResult(None))))
  {
    var t := k + " " + w;
    assert !IsBlank(k[0]) by {
      assert ToLowerChar(k[0]) == ToLowerChar(Keyword[0]);
    }
    assert t[|t| - 1] == w[|w| - 1];
    TrimOfSolid(t);
    SetArgumentIff(t, w);
    ValueOfName(l);
  }

  /** A get command answers the name of the level in force. */
  lemma GetAnswersLevel(c: Connection, getSql: string)
    requires GetMatches(Trim(getSql))
    ensures ExecuteGet(c, getSql).outcome ==
      Success(Some(ExecutionResult(Some(ListResultSet(Name(c.consistencyLevel), LevelColumn)))))
  {
  }

  /** Round trip for a named level: `CONSISTENCY <word>`, with the keyword and
      the word in any case, followed by any get command returns the level's name. */
  lemma SetLevelThenGet(c: Connection, l: ConsistencyLevel, k: string, w: string, getSql: string)
    requires EqualsIgnoreCase(k, Keyword)
    requires IsWord(w) && ToUpper(w) == Name(l)
    requires GetMatches(Trim(getSql))
    ensures ExecuteGet(ExecuteSet(c, k + " " + w).connection, getSql).outcome ==
      Success(Some(ExecutionResult(Some(ListResultSet(Name(l), LevelColumn)))))
  {
    KeywordWordSets(c, l, k, w);
    GetAnswersLevel(ExecuteSet(c, k + " " + w).connection, getSql);
  }

  // ---------------------------------------------------------------------------
  // the executor chain

  datatype Executor = SetLevelExecutor | GetLevelExecutor

  /** One executor: the level is all it may change, and a text it passes on
      changes nothing. */
  function Execute(e: Executor, c: Connection, sql: string): (r: Step)
    ensures r.connection.(consistencyLevel := c.consistencyLevel) == c
    ensures e.GetLevelExecutor? || r.outcome == Success(None) ==> r.connection == c
  {
    match e
    case SetLevelExecutor => ExecuteSet(c, sql)
    case GetLevelExecutor => ExecuteGet(c, sql)
  }

  /** Executors are tried in order; the first that returns a result or throws decides. */
  function RunChain(chain: seq<Executor>, c: Connection, sql: string): (r: Step)
    ensures r.connection.(consistencyLevel := c.consistencyLevel) == c
    ensures r.outcome == Success(None) ==> r.connection == c
    ensures GetLevelExecutor !in chain ==> r.outcome.Success? && r.outcome.value.Some? ==> r.outcome.value.value.resultSet.None?
    decreases |chain|
  {
    if |chain| == 0 then Step(c, Success(None))
    else
      var s := Execute(chain[0], c, sql);
      if s.outcome == Success(None) then RunChain(chain[1..], s.connection, sql) else s
  }

  /** Whatever the order and repetition of executors in the chain, the outcome
      is that of the one executor whose pattern matches, or no result. */
  lemma {:induction false} ChainOrderIrrelevant(chain: seq<Executor>, c: Connection, sql: string)
    ensures RunChain(chain, c, sql) ==
      if SetLevelExecutor in chain && SetArgument(Trim(sql)).Some? then ExecuteSet(c, sql)
      else if GetLevelExecutor in chain && GetMatches(Trim(sql)) then ExecuteGet(c, sql)
      else Step(c, Success(None))
    decreases |chain|
  {
    if |chain| > 0 {
      var rest := chain[1..];
      assert forall e :: e in chain <==> e == chain[0] || e in rest by {
        assert chain == [chain[0]] + rest;
      }
      ChainOrderIrrelevant(rest, c, sql);
      PassesOn(chain[0], c, sql);
      PatternsExclusive(Trim(sql));
    }
  }

  /** An executor whose pattern does not match hands the text on unchanged;
      one whose pattern matches always decides. */
  lemma PassesOn(e: Executor, c: Connection, sql: string)
    ensures Execute(e, c, sql).outcome == Success(None) <==>
      if e.SetLevelExecutor? then SetArgument(Trim(sql)).None? else !GetMatches(Trim(sql))
    ensures Execute(e, c, sql).outcome == Success(None) ==> Execute(e, c, sql).connection == c
  {
  }

  /** The two orders a driver could register the executors in agree. */
  lemma BothOrdersAgree(c: Connection, sql: string)
    ensures RunChain([SetLevelExecutor, GetLevelExecutor], c, sql) ==
            RunChain([GetLevelExecutor, SetLevelExecutor], c, sql)
  {
    ChainOrderIrrelevant([SetLevelExecutor, GetLevelExecutor], c, sql);
    ChainOrderIrrelevant([GetLevelExecutor, SetLevelExecutor], c, sql);
  }
}
