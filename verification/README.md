# cassandra-jdbc-driver core, modelled in Dafny

This project models the core of the DataGrip JDBC driver for Apache Cassandra and proves properties of that model. The core covers five pieces:

- **The connection-string parser** (`CassandraClientURI`). It takes a `jdbc:cassandra://host[,host…][/[keyspace[.collection]][?key=value&…]]` string and an optional property bag. The result is either an `IllegalArgumentException` or the host list, keyspace, collection, user, password, the `sslenabled` flag and the `verifyServerCertificate` flag.
- **The pure part of `createCluster`.** From the hosts it works out the contact-point names, the shared port (the last one named wins), the TLS mode and the credential condition.
- **The driver-property helper** (`DriverPropertyInfoHelper`). This is the `isTrue` truth function and the three-entry property descriptor table.
- **The two meta-command interceptors** (`StatementExecutor`). `CONSISTENCY <level>` sets the connection's consistency level and `CONSISTENCY` reads it back.
- **The connection and statement state machines** (`CassandraConnection`, `CassandraBaseStatement`). These cover the closed flags and the read-only flag, and the release of the session and cluster on close. They also cover the batch and result bookkeeping and how errors are mapped to JDBC exceptions.

Each piece is modelled as immutable data plus pure functions. An exception becomes a `Failure` value carrying the exception's kind and message, and Java's `null` becomes `None`. The state of the connection and of a statement is a record, and each mutator returns the new record. Calls into the cluster driver are inputs of type `EngineOutcome`: either the value the call returned or what it threw. These calls are `session.getLoggedKeyspace`, `session.prepare`, `session.execute` and building a `CassandraResultSet`.

Files, one module each:

| file | module | models |
|---|---|---|
| `wrappers.dfy` | `Wrappers` | `Option` (for `null`) and `Result` (for thrown exceptions) |
| `java_errors.dfy` | `JavaErrors` | the exception kinds the core throws, and what a foreign call can throw |
| `java_text.dfy` | `JavaText` | `String.trim`, `indexOf`, `lastIndexOf`, `split`, ASCII case folding, `Integer.parseInt` |
| `consistency_level.dfy` | `ConsistencyLevels` | the 11 consistency levels, `name()` and `valueOf` |
| `driver_property_info_helper.dfy` | `DriverPropertyInfoHelper` | `isTrue`, `getPropertyInfo`, `addPropInfo` |
| `cassandra_client_uri.dfy` | `CassandraClientUri` | the constructor, `parseOptions`, `getLastValue`, `getOption`, `getURI` |
| `cluster_plan.dfy` | `ClusterPlan` | host/port splitting, the port, TLS and credential choices of `createCluster` |
| `cassandra_base_statement.dfy` | `CassandraBaseStatement` | the closed flag, `getUpdateCount`, `executeBatch`, `executeInner` |
| `cassandra_connection.dfy` | `CassandraConnection` | `close`, the `checkClosed` guard, the accessors, statement creation |
| `statement_executor.dfy` | `StatementExecutors` | the set and get interceptors, and a chain that tries them in order |

Where the code and the driver's advertised behaviour disagree, the model follows the code:

- **A missing prefix is not the only parse failure.** A remainder holding `?` but no `/` is rejected as well, with its own message (`CassandraClientURI.java:47-49`).
- **The host list can be empty.** `",".split(",")` is empty, and the constructor does not reject that.
- **`verifyServerCertificate` defaults to false in practice.** The descriptor table advertises a default of `"true"`, but the constructor computes `isTrue` of a missing value, which is false. Because the URI's option keys are lower-cased while the lookup key is mixed-case, only the property bag can switch verification on. `CassandraClientUri.VerifyServerCertOnlyFromProperties` states this.
- **TLS is configured once per host.** `createCluster` calls `withSSL` inside the host loop, so the plan records `sslConfigurations` as the number of hosts when TLS is on.
- **The parsed URI has no consistency level.** The test file reads a consistency level from the parsed URI (lines 88-108), but `CassandraClientURI` has no such field. Those tests are not modelled.
- **The level accessors are assumed, not read.** `CassandraConnection.java` declares no `setConsistencyLevel`/`getConsistencyLevel`, although the interceptors call them. The model treats them as a plain write and read of the `consistencyLevel` field (`CassandraConnection.java:46`).

Case folding is ASCII-only. This is exact for every comparison the core makes:
- No non-ASCII character lower-cases to a letter of `true`.
- A pattern compiled with `CASE_INSENSITIVE` alone folds only ASCII.
- `\w` is `[A-Za-z0-9_]`.

## Model

| member | source | states |
|---|---|---|
| `JavaText.Trim` | driver/src/main/java/com/dbschema/StatementExecutor.java:30 | `String.trim`: the result begins and ends with a character above U+0020 |
| `JavaText.TrimOfPadded` | driver/src/main/java/com/dbschema/StatementExecutor.java:49 | trimming removes exactly the blank padding around a text with solid ends; inner blanks are kept |
| `JavaText.IndexOf` | driver/src/main/java/com/dbschema/CassandraClientURI.java:57 | `indexOf`: -1 iff the character is absent, else the position of its first occurrence |
| `JavaText.LastIndexOf` | driver/src/main/java/com/dbschema/CassandraClientURI.java:46 | `lastIndexOf`: -1 iff the character is absent, else the position of its last occurrence |
| `JavaText.Split` | driver/src/main/java/com/dbschema/CassandraClientURI.java:76 | no element holds a delimiter; the result is the text alone exactly when the text has no delimiter; otherwise the last element is non-empty; the result is a prefix of the fields between delimiters and every field it leaves off is empty |
| `JavaText.DropTrailingEmpty` | driver/src/main/java/com/dbschema/CassandraClientURI.java:164 | the result is a prefix of the fields, ends in a non-empty field, and everything dropped is empty |
| `JavaText.JoinOfFields` | driver/src/main/java/com/dbschema/CassandraClientURI.java:76 | joining the fields of a text with the separator gives the text back |
| `JavaText.SplitRebuilds` | driver/src/main/java/com/dbschema/CassandraClientURI.java:76 | putting back the empty fields `split` dropped and joining with the separator rebuilds the text |
| `JavaText.FieldsOfJoin` | driver/src/main/java/com/dbschema/CassandraClientURI.java:76 | the fields of a joined list are the list when no part holds the separator |
| `JavaText.SplitOfJoin` | driver/src/main/java/com/dbschema/CassandraClientURI.java:76 | splitting a joined list gives it back when no part holds the separator and the last part is not empty |
| `JavaText.SplitOfEmpty` | driver/src/main/java/com/dbschema/CassandraClientURI.java:76 | `"".split(",")` is `[""]` |
| `JavaText.SplitOfSeparatorAlone` | driver/src/main/java/com/dbschema/CassandraClientURI.java:76 | `",".split(",")` is empty, so the host list can be empty |
| `JavaText.ToLower` | driver/src/main/java/com/dbschema/DriverPropertyInfoHelper.java:47 | `toLowerCase(Locale.ENGLISH)` on ASCII: same length, equal to the input up to case, and no upper-case letter left; `JavaText.ToLowerEqualsIff` and `JavaText.ToLowerIdempotent` relate it to comparisons |
| `JavaText.ToUpper` | driver/src/main/java/com/dbschema/StatementExecutor.java:34 | `toUpperCase(Locale.ENGLISH)` on ASCII: same length, equal to the input up to case, and no lower-case letter left |
| `JavaText.ToLowerIdempotent` | driver/src/main/java/com/dbschema/CassandraClientURI.java:167 | lower-casing an already lower-cased key changes nothing |
| `JavaText.ToLowerEqualsIff` | driver/src/main/java/com/dbschema/DriverPropertyInfoHelper.java:47 | lower-casing equals a lower-case constant iff the text equals it up to ASCII case |
| `JavaText.ParseInt` | driver/src/main/java/com/dbschema/CassandraClientURI.java:116 | `Integer.parseInt`: a value is produced only within the 32-bit range; which texts parse, and to what, is stated by `JavaText.ParseIntOfSigned` and `JavaText.ParseIntOnlySigned` |
| `JavaText.ParseIntOfSigned` | driver/src/main/java/com/dbschema/CassandraClientURI.java:116 | an optional `+` or `-` followed by at least one ASCII digit parses iff its signed value lies in the 32-bit range, and then to that value, leading zeros included |
| `JavaText.ParseIntOnlySigned` | driver/src/main/java/com/dbschema/CassandraClientURI.java:116 | every text that parses is an optional sign followed by at least one digit, and its value is what they denote; so the empty text, a sign alone and any other character are rejected |
| `JavaText.ParseIntAccepts` | driver/src/main/java/com/dbschema/CassandraClientURI.java:116 | `"+7"` and `"007"` parse to 7 and `"-0"` to 0 |
| `JavaText.ParseIntRejects` | driver/src/main/java/com/dbschema/CassandraClientURI.java:116 | `""`, `"+"` and `"abc"` are rejected, so `host:`, `host:+` and `host:abc` fail |
| `JavaText.ParseIntOfDecimal` | driver/src/main/java/com/dbschema/CassandraClientURI.java:116 | every 32-bit value's decimal text, signed when negative, parses back to that value |
| `ConsistencyLevels.Name` | driver/src/main/java/com/dbschema/DriverPropertyInfoHelper.java:18 | every level name is a non-empty run of upper-case letters and `_` |
| `ConsistencyLevels.ValueOf` | driver/src/main/java/com/dbschema/StatementExecutor.java:34 | a found level has exactly the given name; `null` (the exception) only when no level has that name |
| `ConsistencyLevels.ValueOfName` | driver/src/main/java/com/dbschema/StatementExecutor.java:34 | `valueOf(name())` is the level itself |
| `ConsistencyLevels.ValueOfIff` | driver/src/main/java/com/dbschema/StatementExecutor.java:34 | `valueOf(s)` yields a level iff `s` is that level's exact name |
| `DriverPropertyInfoHelper.AddPropInfo` | driver/src/main/java/com/dbschema/DriverPropertyInfoHelper.java:36-44 | appends exactly one descriptor with the given name, default, description and choices, leaving earlier entries unchanged |
| `DriverPropertyInfoHelper.GetPropertyInfo` | driver/src/main/java/com/dbschema/DriverPropertyInfoHelper.java:10-34 | three entries in the order `sslenabled`, `verifyServerCertificate`, `consistencyLevel`; defaults `"false"`, `"true"` and the default level's name; the boolean entries offer `["true","false"]`; the level entry offers the 11 names in declared order; none is required |
| `DriverPropertyInfoHelper.IsTrue` | driver/src/main/java/com/dbschema/DriverPropertyInfoHelper.java:46-48 | true iff the value is non-null and is `"1"` exactly or `"true"` up to ASCII case |
| `DriverPropertyInfoHelper.IsTrueExamples` | driver/src/main/java/com/dbschema/DriverPropertyInfoHelper.java:47 | `null`, `"yes"`, `" true"`, `"0"` and `"false"` are false; `"1"`, `"true"`, `"TRUE"` and `"tRuE"` are true |
| `CassandraClientUri.Collect` | driver/src/main/java/com/dbschema/CassandraClientURI.java:161-179 | every key of the parsed options maps to a non-empty list of values |
| `CassandraClientUri.SettingOf` | driver/src/main/java/com/dbschema/CassandraClientURI.java:165-168 | a token yields a setting iff it holds `=`; the key is the lower-cased text before the first `=` and the value all of the text after it, further `=` included |
| `CassandraClientUri.ParseOptions` | driver/src/main/java/com/dbschema/CassandraClientURI.java:161-179 | every key is lower-case and lists at least one value; with `CassandraClientUri.LastValueWins`, the last setting of a key is its value |
| `CassandraClientUri.GetLastValue` | driver/src/main/java/com/dbschema/CassandraClientURI.java:154-159 | `null` for absent options, an absent key or an empty list; otherwise the last value listed |
| `CassandraClientUri.GetOption` | driver/src/main/java/com/dbschema/CassandraClientURI.java:100-108 | a property-bag entry wins; otherwise the last value the URI lists for the key; `null` iff neither has one |
| `CassandraClientUri.LastValueWins` | driver/src/main/java/com/dbschema/CassandraClientURI.java:161-179 | tokens without `=` are ignored; a key has a value iff some token sets it, and the value is that of the last token setting it |
| `CassandraClientUri.KeysAreLowerCase` | driver/src/main/java/com/dbschema/CassandraClientURI.java:167 | every parsed option key is lower-case |
| `CassandraClientUri.GetOptionResolves` | driver/src/main/java/com/dbschema/CassandraClientURI.java:100-108 | a property-bag entry takes precedence; otherwise the last URI setting counts; a key in neither resolves to `null` |
| `CassandraClientUri.MixedCaseKeyNeverInUri` | driver/src/main/java/com/dbschema/CassandraClientURI.java:167 | a key with an upper-case letter is never found among the URI options |
| `CassandraClientUri.SplitSections` | driver/src/main/java/com/dbschema/CassandraClientURI.java:45-63 | fails, with the options-without-slash message, iff the remainder has no `/` but has a `?` |
| `CassandraClientUri.SplitSectionsSound` | driver/src/main/java/com/dbschema/CassandraClientURI.java:45-63 | the sections are well formed and compose back to the remainder; the namespace part is absent iff there is no `/` |
| `CassandraClientUri.NamespaceSectionSound` | driver/src/main/java/com/dbschema/CassandraClientURI.java:55-61 | the part after the last `/` is cut at its first `?` into a namespace part and an option block |
| `CassandraClientUri.SplitOfCompose` | driver/src/main/java/com/dbschema/CassandraClientURI.java:45-63 | cutting a text composed from well-formed sections gives those sections back |
| `CassandraClientUri.Namespace` | driver/src/main/java/com/dbschema/CassandraClientURI.java:81-93 | empty or absent gives neither keyspace nor collection; without `.` the keyspace is the whole part; otherwise keyspace `.` collection is the part, cut at its first `.` |
| `CassandraClientUri.NamespaceOfDotted` | driver/src/main/java/com/dbschema/CassandraClientURI.java:81-93 | `keyspace.collection` with no dot in the keyspace resolves to that keyspace and collection; an empty keyspace stays `""`, not `null` |
| `CassandraClientUri.Parse` | driver/src/main/java/com/dbschema/CassandraClientURI.java:33-94 | fails iff the prefix is missing or the remainder has a `?` but no `/`, with the matching message; on success keeps the original string |
| `CassandraClientUri.ParseWithoutSlash` | driver/src/main/java/com/dbschema/CassandraClientURI.java:46-52 | without `/` or `?` the whole remainder is the server part: no keyspace, no collection, user and password from the property bag only, and a single host when there is no comma |
| `CassandraClientUri.ParseOfCompose` | driver/src/main/java/com/dbschema/CassandraClientURI.java:33-94 | parsing the prefix and composed well-formed sections builds the client URI from exactly those sections |
| `CassandraClientUri.NamespaceOfLeadingDot` | driver/src/main/java/com/dbschema/CassandraClientURI.java:85-88 | `/.coll` gives the empty keyspace `""` and the collection `coll` |
| `CassandraClientUri.ParseHostsAndNamespace` | driver/src/main/java/com/dbschema/CassandraClientURI.java:73-93 | hosts joined by `,` then `/keyspace.collection` parse back to the same hosts in order, the keyspace and the collection, for any keyspace without a dot, the empty one included |
| `CassandraClientUri.ParseResolvesSettings` | driver/src/main/java/com/dbschema/CassandraClientURI.java:65-68 | user, password and `sslenabled` are resolved by property bag first, then the last URI setting, else `null` |
| `CassandraClientUri.SslDisabledByDefault` | driver/src/main/java/com/dbschema/CassandraClientURI.java:67-68 | `sslenabled` set nowhere means TLS is off |
| `CassandraClientUri.VerifyServerCertOnlyFromProperties` | driver/src/main/java/com/dbschema/CassandraClientURI.java:69-70 | certificate verification is on iff the property bag holds a true `verifyServerCertificate` |
| `CassandraClientUri.RejectsOtherSchemes` | driver/src/test/com/dbschema/CassandraClientURITest.java:16-19 | a `jdbc:postgresql://` string fails with the missing-prefix message |
| `ClusterPlan.NextPort` | driver/src/main/java/com/dbschema/CassandraClientURI.java:114-118 | a host whose first `:` is past position 0 sets the port to the parsed trimmed text after it, failing with `NumberFormatException` when that does not parse; other hosts keep the port |
| `ClusterPlan.ContactName` | driver/src/main/java/com/dbschema/CassandraClientURI.java:113-119 | a host naming no port is used unchanged; otherwise the name is shorter than the host, holds no `:`, and has no blank ends |
| `ClusterPlan.PlanHosts` | driver/src/main/java/com/dbschema/CassandraClientURI.java:112-119 | when the loop completes it yields one contact name per host |
| `ClusterPlan.PlanHostsFailure` | driver/src/main/java/com/dbschema/CassandraClientURI.java:113-118 | the loop fails iff some host's port text does not parse, with the text of the first such host |
| `ClusterPlan.PlanHostsNames` | driver/src/main/java/com/dbschema/CassandraClientURI.java:113-119 | each host becomes one contact point, in order: the trimmed text before its first `:`, or the host unchanged |
| `ClusterPlan.PlanHostsPort` | driver/src/main/java/com/dbschema/CassandraClientURI.java:112-118 | the final port is that of the last host naming a port, or the starting value when none does |
| `ClusterPlan.CredentialsOf` | driver/src/main/java/com/dbschema/CassandraClientURI.java:146-148 | credentials are applied iff the user is non-null and non-empty and the password is non-null |
| `ClusterPlan.SslModeOf` | driver/src/main/java/com/dbschema/CassandraClientURI.java:121-140 | no TLS iff `sslEnabled` is off; the verifying mode iff TLS is on and `verifyServerCert` is set; the trust-everybody mode otherwise |
| `ClusterPlan.Plan` | driver/src/main/java/com/dbschema/CassandraClientURI.java:110-151 | one contact point per host; TLS configured once per host when enabled, never otherwise; the TLS mode is `ClusterPlan.SslModeOf` and the credentials are `ClusterPlan.CredentialsOf` of the parsed URI |
| `ClusterPlan.PlanPort` | driver/src/main/java/com/dbschema/CassandraClientURI.java:142-145 | `withPort` is called iff the last port-naming host names a non-negative port, and then with that port |
| `ClusterPlan.PlanContacts` | driver/src/main/java/com/dbschema/CassandraClientURI.java:113-119 | the plan fails iff some host has a bad port; otherwise the contact points are the hosts' names in order |
| `ClusterPlan.UriAloneNeverVerifies` | driver/src/main/java/com/dbschema/CassandraClientURI.java:121-139 | without a property bag, enabled TLS always uses the trust-everybody context |
| `CassandraBaseStatement.New` | driver/src/main/java/com/dbschema/CassandraBaseStatement.java:13-20 | a new statement is open, with no pending batch and no result |
| `CassandraBaseStatement.Close` | driver/src/main/java/com/dbschema/CassandraBaseStatement.java:22-25 | sets the closed flag, never fails, and changes nothing else |
| `CassandraBaseStatement.IsClosed` | driver/src/main/java/com/dbschema/CassandraBaseStatement.java:33-36 | answers the closed flag and never fails |
| `CassandraBaseStatement.CloseIdempotent` | driver/src/main/java/com/dbschema/CassandraBaseStatement.java:22-36 | closing twice is closing once, and `isClosed` then answers true |
| `CassandraBaseStatement.CheckClosed` | driver/src/main/java/com/dbschema/CassandraBaseStatement.java:27-31 | fails iff the statement is closed, with "Statement was previously closed." |
| `CassandraBaseStatement.GetUpdateCount` | driver/src/main/java/com/dbschema/CassandraBaseStatement.java:60-64 | -1 while open; the closed failure once closed |
| `CassandraBaseStatement.SetCursorName` | driver/src/main/java/com/dbschema/CassandraBaseStatement.java:169-173 | a no-op while open; the closed failure once closed |
| `CassandraBaseStatement.GetMoreResults` | driver/src/main/java/com/dbschema/CassandraBaseStatement.java:54-58 | there is never a further result |
| `CassandraBaseStatement.GetFetchDirection` | driver/src/main/java/com/dbschema/CassandraBaseStatement.java:180-183 | always `FETCH_FORWARD` (1000) |
| `CassandraBaseStatement.Cancel` | driver/src/main/java/com/dbschema/CassandraBaseStatement.java:154-157 | always fails with `SQLFeatureNotSupportedException` and its message |
| `CassandraBaseStatement.ExecuteBatch` | driver/src/main/java/com/dbschema/CassandraBaseStatement.java:66-82 | afterwards no batch is pending and nothing else changed; succeeds iff a batch was pending and the session ran it, with one `SUCCESS_NO_INFO` per statement; no batch gives "No batch statements were submitted"; a session failure gives `SQLException` with its message |
| `CassandraBaseStatement.BatchRunsOnce` | driver/src/main/java/com/dbschema/CassandraBaseStatement.java:66-82 | right after `executeBatch`, whatever the session did, a second `executeBatch` fails with the no-batch message and changes nothing |
| `CassandraBaseStatement.BatchIgnoresClosedFlag` | driver/src/main/java/com/dbschema/CassandraBaseStatement.java:66-82 | the outcome of `executeBatch` does not depend on the closed flag |
| `CassandraBaseStatement.ExecuteInner` | driver/src/main/java/com/dbschema/CassandraBaseStatement.java:38-52 | the closed flag and batch are kept; succeeds iff the result set was built, answering `isQuery` and keeping the wrapped result iff it is a query; a syntax error becomes `SQLSyntaxErrorException` and anything else `SQLException`, message kept and state unchanged |
| `CassandraBaseStatement.ClosedIsTerminal` | driver/src/main/java/com/dbschema/CassandraBaseStatement.java:22-64 | over any sequence of calls the statement is closed iff it was or a close was issued; once closed, close is a no-op and the guarded calls fail |
| `CassandraConnection.Open` | driver/src/main/java/com/dbschema/CassandraConnection.java:43-53 | a new connection is open, not read-only, holds the given level and flag, and has released nothing |
| `CassandraConnection.CheckClosed` | driver/src/main/java/com/dbschema/CassandraConnection.java:354-358 | fails iff the connection is closed, with "Statement was previously closed." |
| `CassandraConnection.Close` | driver/src/main/java/com/dbschema/CassandraConnection.java:146-155 | the connection is closed afterwards and nothing but the closed flag and the release log changes |
| `CassandraConnection.CloseIdempotent` | driver/src/main/java/com/dbschema/CassandraConnection.java:146-160 | closing twice is closing once; the session and cluster are released only by the first close, in that order |
| `CassandraConnection.IsClosed` | driver/src/main/java/com/dbschema/CassandraConnection.java:157-160 | answers the closed flag and never fails |
| `CassandraConnection.GetCatalog` | driver/src/main/java/com/dbschema/CassandraConnection.java:55-62 | the closed failure once closed; otherwise the session's logged keyspace, or `SQLException` with the message of what the session threw |
| `CassandraConnection.GetSchema` | driver/src/main/java/com/dbschema/CassandraConnection.java:365-368 | answers exactly what `getCatalog` answers |
| `CassandraConnection.SetCatalog` | driver/src/main/java/com/dbschema/CassandraConnection.java:180-183 | never fails and changes nothing |
| `CassandraConnection.SetSchema` | driver/src/main/java/com/dbschema/CassandraConnection.java:360-363 | never fails and changes nothing |
| `CassandraConnection.SetClientInfo` | driver/src/main/java/com/dbschema/CassandraConnection.java:318-321 | never fails and changes nothing |
| `CassandraConnection.SetAutoCommit` | driver/src/main/java/com/dbschema/CassandraConnection.java:124-127 | while open succeeds and changes nothing; once closed fails with the closed message |
| `CassandraConnection.GetAutoCommit` | driver/src/main/java/com/dbschema/CassandraConnection.java:129-133 | true while open; fails once closed |
| `CassandraConnection.Commit` | driver/src/main/java/com/dbschema/CassandraConnection.java:135-138 | while open succeeds and changes nothing; fails once closed |
| `CassandraConnection.Rollback` | driver/src/main/java/com/dbschema/CassandraConnection.java:140-143 | while open succeeds and changes nothing; fails once closed |
| `CassandraConnection.SetReadOnly` | driver/src/main/java/com/dbschema/CassandraConnection.java:168-172 | while open stores the flag and nothing else; fails once closed |
| `CassandraConnection.IsReadOnly` | driver/src/main/java/com/dbschema/CassandraConnection.java:174-178 | the stored flag while open; fails once closed |
| `CassandraConnection.SetTransactionIsolation` | driver/src/main/java/com/dbschema/CassandraConnection.java:185-191 | always fails: the closed failure once closed, else `UnsupportedOperationException` "Cassandra provides no support for transactions." |
| `CassandraConnection.GetTransactionIsolation` | driver/src/main/java/com/dbschema/CassandraConnection.java:193-197 | `TRANSACTION_NONE` while open; fails once closed |
| `CassandraConnection.NativeSql` | driver/src/main/java/com/dbschema/CassandraConnection.java:118-122 | always fails: the closed failure once closed, else `SQLFeatureNotSupportedException` "Cassandra does not support SQL natively." |
| `CassandraConnection.IsValid` | driver/src/main/java/com/dbschema/CassandraConnection.java:312-316 | true while open; fails once closed |
| `CassandraConnection.GetConsistencyLevel` | driver/src/main/java/com/dbschema/CassandraConnection.java:46 | reads the `consistencyLevel` field (an accessor the source file does not declare; see above) |
| `CassandraConnection.SetConsistencyLevel` | driver/src/main/java/com/dbschema/CassandraConnection.java:46 | afterwards the level read back is the level set, and nothing else changed |
| `CassandraConnection.CreateStatement` | driver/src/main/java/com/dbschema/CassandraConnection.java:81-89 | while open a fresh statement carrying the current level; fails once closed |
| `CassandraConnection.ReturnNullStringsIff` | driver/src/main/java/com/dbschema/CassandraConnection.java:102-111 | a prepared statement returns "null" strings instead of nulls exactly for the column intro query on a connection whose flag is off |
| `CassandraConnection.PrepareStatement` | driver/src/main/java/com/dbschema/CassandraConnection.java:101-111 | succeeds iff open and the session prepares the text; the closed failure first; anything the session throws becomes `SQLException` with its message |
| `CassandraConnection.StatementsTakeCurrentLevel` | driver/src/main/java/com/dbschema/CassandraConnection.java:82-111 | both statement kinds receive the level current at creation, and the prepared one the null-strings flag for its text |
| `CassandraConnection.GuardedAfterClose` | driver/src/main/java/com/dbschema/CassandraConnection.java:55-197 | once closed, `getCatalog`, `getSchema`, `createStatement`, `prepareStatement`, the auto-commit, commit, rollback, read-only and isolation calls all fail with the closed message |
| `CassandraConnection.ReleasedAtMostOnce` | driver/src/main/java/com/dbschema/CassandraConnection.java:146-160 | over any sequence of calls, `setConsistencyLevel` included: closed iff it was or a close was issued; session and cluster released at most once; the level is the one last set, or the starting level when none was set; the opening flag never changes |
| `CassandraConnection.LevelIsLastSet` | driver/src/main/java/com/dbschema/StatementExecutor.java:34 | over any sequence of calls the level is the one the last `setConsistencyLevel` installed, or the starting level when there was none |
| `CassandraConnection.ReadOnlyIsLastSet` | driver/src/main/java/com/dbschema/CassandraConnection.java:168-178 | while no close is issued, `isReadOnly` answers the last value passed to `setReadOnly`, or the starting value when there was none |
| `CassandraConnection.ReadOnlyInitiallyFalse` | driver/src/main/java/com/dbschema/CassandraConnection.java:45 | a new connection reports not read-only |
| `CassandraConnection.NeverFailing` | driver/src/main/java/com/dbschema/CassandraConnection.java:157-183 | `setCatalog`, `setClientInfo` and `setSchema` leave the state unchanged, open or closed |
| `StatementExecutors.SetArgument` | driver/src/main/java/com/dbschema/StatementExecutor.java:26-32 | a group the set pattern captures is a `\w+` word strictly shorter than the text; `StatementExecutors.SetArgumentIff` gives the exact match condition |
| `StatementExecutors.SetArgumentIff` | driver/src/main/java/com/dbschema/StatementExecutor.java:26-32 | the set pattern matches a text iff it is the keyword in any ASCII case, one space and a non-empty `\w+` word, which is the group |
| `StatementExecutors.PatternsExclusive` | driver/src/main/java/com/dbschema/StatementExecutor.java:24-51 | no text is matched by both patterns |
| `StatementExecutors.ExecuteSet` | driver/src/main/java/com/dbschema/StatementExecutor.java:29-40 | `null` iff the trimmed text does not match; only the level may change, and it does not on failure; a result carries no result set |
| `StatementExecutors.ExecuteGet` | driver/src/main/java/com/dbschema/StatementExecutor.java:48-51 | never fails and never changes the connection; answers iff the trimmed text is `consistency` in any case, with the level's name in column `consistency_level` |
| `StatementExecutors.ExecuteSetOnMatch` | driver/src/main/java/com/dbschema/StatementExecutor.java:32-39 | on a match, a word naming a level after upper-casing installs that level; any other word fails with the `valueOf` exception's text and leaves the level |
| `StatementExecutors.SetCommandSetsLevel` | driver/src/main/java/com/dbschema/StatementExecutor.java:26-39 | the keyword in any case, one space and a level's name in any case, with blank padding, sets that level |
| `StatementExecutors.UnknownWordFails` | driver/src/main/java/com/dbschema/StatementExecutor.java:33-38 | a word naming no level fails with the upper-cased word in the message and keeps the level |
| `StatementExecutors.BogusFails` | driver/src/main/java/com/dbschema/StatementExecutor.java:33-38 | `CONSISTENCY bogus` fails naming `BOGUS` and keeps the level |
| `StatementExecutors.NamedLevelSets` | driver/src/main/java/com/dbschema/StatementExecutor.java:32-34 | `CONSISTENCY <name>` installs the named level, for each of the 11 levels |
| `StatementExecutors.InnerSpacingMatters` | driver/src/main/java/com/dbschema/StatementExecutor.java:24-51 | `CONSISTENCY  ONE`, with two spaces, matches neither executor |
| `StatementExecutors.SetThenGet` | driver/src/main/java/com/dbschema/StatementExecutor.java:32-50 | after a successful set, get answers the upper-cased word the set was given |
| `StatementExecutors.SetLevelThenGet` | driver/src/main/java/com/dbschema/StatementExecutor.java:32-50 | setting a level by any spelling of its name and then reading returns that level's name |
| `StatementExecutors.ChainOrderIrrelevant` | driver/src/main/java/com/dbschema/StatementExecutor.java:24-51 | whatever the order and repetition of executors in the chain, the outcome is that of the one whose pattern matches, or none |
| `StatementExecutors.Execute` | driver/src/main/java/com/dbschema/StatementExecutor.java:13-14 | an executor may change only the level; the get executor changes nothing, and a text an executor passes on changes nothing |
| `StatementExecutors.RunChain` | driver/src/main/java/com/dbschema/StatementExecutor.java:13-14 | running the chain may change only the level; when no executor handles the text nothing changes; without the get executor no result set is returned |
| `StatementExecutors.BothOrdersAgree` | driver/src/main/java/com/dbschema/StatementExecutor.java:24-51 | the two registration orders give the same outcome on every text |

Two predicates have no row because they are only tests. `StatementExecutors.GetMatches` is the get pattern, equality with `CONSISTENCY` up to ASCII case; `StatementExecutors.PatternsExclusive` and `StatementExecutors.ExecuteGet` state what it decides. `CassandraConnection.ReturnNullStrings` is the flag handed to a prepared statement; `CassandraConnection.ReturnNullStringsIff` states when it is off.

## Left out

- **Host-name resolution.** `InetAddress.getByName` and its `UnknownHostException` are left out. The plan lists the names that would be resolved.
- **TLS context construction.** This covers the `javax.net.ssl.*` system properties, the `new URL` check of the keystore location, `SSLUtil.getTrustEverybodySSLContext` and `SSLParamsException`. These are JDK and library code; the plan records only which TLS mode is chosen.
- **The cluster builder and `build()`.** The plan records the builder calls instead of making them.
- **Logging and console output.** `logger.info` and `System.out.println` in `createCluster` have no effect on the result.
- **`null` arguments.** Java `null` for the URI string or a property name makes the parser throw `NullPointerException`. The same holds for a `null` text in the set and get executors, at `trim`. A `null` SQL text passed to `prepareStatement` reaches `session.prepare`, and whatever that throws becomes `SQLException` (`CassandraConnection.java:103-109`). `nativeSQL` fails with `SQLFeatureNotSupportedException` whatever its argument. The model's strings are never `null`: `CassandraConnection.PrepareStatement` covers the prepare failure through its `prepared` input, and `CassandraConnection.NativeSql` ignores the text.
- **Non-string property values.** A non-`String` value in the `Properties` bag makes `getOption` throw `ClassCastException`. The bag is modelled as a string-to-string map.
- **Non-ASCII digits.** `Integer.parseInt` also accepts non-ASCII Unicode decimal digits; the model accepts ASCII digits only.
- **Unicode case folding.** `toUpperCase`/`toLowerCase(Locale.ENGLISH)` also fold non-ASCII letters; the model folds ASCII only. This changes no comparison, for the reasons given above.
- **`session.close()` and `cluster.close()` throwing during `close`.** A failing shutdown is not modelled; close always completes.
- **Statement construction failures.** A failure while constructing the `CassandraStatement` in `createStatement` is not modelled; the model's `createStatement` cannot fail while the connection is open. In `prepareStatement`, a failure of `statement.setConsistencyLevel` or of the `CassandraPreparedStatement` constructor is caught and rethrown like a failed `session.prepare` (`CassandraConnection.java:103-109`). The `prepared` input therefore stands for the whole try block. The level handed to the prepared statement is recorded as the level the created statement carries.
- **Unsupported operations.** The many connection and statement methods that only throw `SQLFeatureNotSupportedException` without a message are not modelled one by one. Examples are `createStatement(int, int)`, `prepareCall`, `setSavepoint`, `getMaxRows` and `unwrap` on a statement. They have no logic and no effect on state.
- **Closed-guarded accessors that return a constant.** `unwrap`, `isWrapperFor`, `getWarnings`, `clearWarnings`, `createNClob`, `createSQLXML`, `getClientInfo`, `createArrayOf` and `createStruct` check the closed flag and then return `null`, `false` or nothing. `CassandraConnection.IsValid` stands for that shape. `getMetaData` builds a `CassandraMetaData`, which is not part of this model.
- **The statement no-ops.** `setMaxRows`, `setFetchSize`, `getWarnings` and `clearWarnings` do nothing or return `null`.
- **Collaborator classes.** `CassandraStatement`, `CassandraPreparedStatement` (including `addBatch`), `CassandraResultSet`, `ListResultSet` rendering, `CassandraMetaData` and `CassandraJdbcDriver` are not part of this model. Neither is the executor chain's real registration order: the chain is a parameter, and `StatementExecutors.ChainOrderIrrelevant` shows the order does not matter.
- **`DEFAULT_CONSISTENCY_LEVEL`.** It is a constant of the cluster driver, so `DriverPropertyInfoHelper.GetPropertyInfo` takes it as a parameter.
- **Version-skewed tests.** The test cases that read a consistency level from `CassandraClientURI` (test file lines 88-108) call a method the class does not have.
